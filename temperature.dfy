/**
 * The per-sensor sliding window of recent temperatures (k8_fan_controller/temperature.py).
 * Every sensor keeps a bounded series of its last readings (a deque with `maxlen`) and the
 * number of the update cycle in which it last reported; a sensor silent for a whole window
 * is forgotten. The averages of the series smooth out sensor noise.
 */
module Temperature {
  import opened Numeric

  /** The state of a history, as plain values. */
  datatype History = History(samples: map<string, seq<real>>, lastSeen: map<string, int>, cycle: int)

  /** Appending `x` to a deque of capacity `n` holding `series`: the oldest readings fall
      out once the deque is full. */
  function Window(series: seq<real>, x: real, n: int): (w: seq<real>)
    requires n >= 1
    ensures |w| == if |series| + 1 <= n then |series| + 1 else n
    ensures w[|w| - 1] == x
  {
    var s := series + [x];
    if |s| > n then s[|s| - n..] else s
  }

  /** The window holds the most recent readings, oldest first: the tail of the old series
      followed by `x`, nothing else and in the same order. */
  lemma WindowKeepsLatest(series: seq<real>, x: real, n: int)
    requires n >= 1
    ensures Window(series, x, n) == (series + [x])[|series| + 1 - |Window(series, x, n)|..]
    ensures |series| < n ==> Window(series, x, n) == series + [x]
  {
  }

  /** A full window slides: the oldest reading is dropped and the new one appended. */
  lemma WindowSlides(series: seq<real>, x: real, n: int)
    requires n >= 1 && |series| == n
    ensures Window(series, x, n) == series[1..] + [x]
  {
  }

  /** `last_seen.get(s, 0) <= cutoff`. */
  predicate Stale(lastSeen: map<string, int>, s: string, cutoff: int) {
    (if s in lastSeen then lastSeen[s] else 0) <= cutoff
  }

  /** `last_seen.get(s, 0)` once the update has stamped its sensors with the new cycle. */
  function SeenAfter(h: History, temps: map<string, real>, s: string): int {
    if s in temps then h.cycle + 1 else if s in h.lastSeen then h.lastSeen[s] else 0
  }

  /** Whether sensor `s` has a series after a non-empty update: it had one or has just
      reported, and it reported within the window that ends with the new cycle. */
  predicate Kept(h: History, temps: map<string, real>, n: int, s: string) {
    (s in h.samples || s in temps) && SeenAfter(h, temps, s) > h.cycle + 1 - n
  }

  /** The series of `s` after the update appends its reading, if any. */
  function SeriesAfter(h: History, temps: map<string, real>, n: int, s: string): seq<real>
    requires n >= 1 && (s in h.samples || s in temps)
  {
    if s in temps then Window(if s in h.samples then h.samples[s] else [], temps[s], n)
    else h.samples[s]
  }

  /** `r` is what `update(temps)` makes of `h`, for windows of `n` readings: an empty
      update changes nothing, not even the cycle; otherwise the cycle advances by one,
      every reading joins its sensor's window and stamps the sensor, and the sensors that
      did not report within the window are dropped from both maps. */
  ghost predicate Updated(h: History, temps: map<string, real>, n: int, r: History)
    requires n >= 1
  {
    if |temps| == 0 then r == h
    else
      && r.cycle == h.cycle + 1
      && (forall s :: s in r.samples <==> Kept(h, temps, n, s))
      && (forall s :: s in r.lastSeen <==> Kept(h, temps, n, s))
      && (forall s :: s in r.samples ==> r.samples[s] == SeriesAfter(h, temps, n, s))
      && (forall s :: s in r.lastSeen ==> r.lastSeen[s] == SeenAfter(h, temps, s))
  }

  /** What every reachable history satisfies: both maps have the same sensors, every
      series is non-empty and fits its window, and every sensor still present reported
      within the last `n` cycles. */
  ghost predicate WellFormed(h: History, n: int) {
    && h.samples.Keys == h.lastSeen.Keys
    && (forall s :: s in h.samples ==> 1 <= |h.samples[s]| <= n)
    && (forall s :: s in h.lastSeen ==> h.cycle - n < h.lastSeen[s] <= h.cycle)
  }

  lemma UpdateWellFormed(h: History, temps: map<string, real>, n: int, r: History)
    requires n >= 1 && WellFormed(h, n) && Updated(h, temps, n, r)
    ensures WellFormed(r, n)
  {
    if |temps| > 0 {
      forall s | s in r.samples
        ensures 1 <= |r.samples[s]| <= n
      {
        assert r.samples[s] == SeriesAfter(h, temps, n, s);
      }
      forall s | s in r.lastSeen
        ensures r.cycle - n < r.lastSeen[s] <= r.cycle
      {
        assert Kept(h, temps, n, s);
      }
    }
  }

  /** A sensor reported in a non-empty update survives it, stamped with the new cycle,
      with the new reading last in a series that still fits the window. */
  lemma UpdateReported(h: History, temps: map<string, real>, n: int, r: History, s: string)
    requires n >= 1 && Updated(h, temps, n, r) && s in temps
    ensures s in r.samples && s in r.lastSeen
    ensures r.lastSeen[s] == r.cycle
    ensures r.samples[s][|r.samples[s]| - 1] == temps[s]
    ensures 1 <= |r.samples[s]| <= n
    ensures s in h.samples && |h.samples[s]| < n ==> r.samples[s] == h.samples[s] + [temps[s]]
  {
    assert Kept(h, temps, n, s);
    assert r.samples[s] == SeriesAfter(h, temps, n, s);
  }

  /** A sensor not reported in a non-empty update keeps its series and its stamp exactly
      when it reported within the window that ends with the new cycle; a sensor that never
      reported never gets a series. */
  lemma UpdateUnreported(h: History, temps: map<string, real>, n: int, r: History, s: string)
    requires n >= 1 && WellFormed(h, n) && Updated(h, temps, n, r) && |temps| > 0 && s !in temps
    ensures s in r.samples <==> s in h.samples && h.lastSeen[s] > r.cycle - n
    ensures s in r.samples ==> r.samples[s] == h.samples[s] && r.lastSeen[s] == h.lastSeen[s]
  {
    assert Kept(h, temps, n, s) <==> s in h.samples && h.lastSeen[s] > r.cycle - n;
  }

  /** With a window of one reading, a non-empty update keeps exactly the sensors it
      reports, each with just its new reading. */
  lemma UpdateWindowOne(h: History, temps: map<string, real>, r: History)
    requires WellFormed(h, 1) && Updated(h, temps, 1, r) && |temps| > 0
    ensures r.samples.Keys == temps.Keys
    ensures forall s :: s in r.samples ==> r.samples[s] == [temps[s]]
  {
    forall s | s in r.samples
      ensures s in temps && r.samples[s] == [temps[s]]
    {
      assert Kept(h, temps, 1, s);
      assert r.samples[s] == SeriesAfter(h, temps, 1, s);
    }
    forall s | s in temps
      ensures s in r.samples
    {
      assert Kept(h, temps, 1, s);
    }
  }

  /** The sum of a series. */
  function SumR(v: seq<real>): real {
    if |v| == 0 then 0.0 else v[0] + SumR(v[1..])
  }

  lemma {:induction false} SumRBounds(v: seq<real>, lo: real, hi: real)
    requires forall i :: 0 <= i < |v| ==> lo <= v[i] <= hi
    ensures Times(|v|, lo) <= SumR(v) <= Times(|v|, hi)
    decreases |v|
  {
    if |v| > 0 {
      SumRBounds(v[1..], lo, hi);
    }
  }

  /** The mean of a non-empty series. */
  function Mean(v: seq<real>): real
    requires |v| > 0
  {
    SumR(v) / (|v| as real)
  }

  /** A mean lies between the smallest and the largest bound of its series. */
  lemma MeanWithin(v: seq<real>, lo: real, hi: real)
    requires |v| > 0
    requires forall i :: 0 <= i < |v| ==> lo <= v[i] <= hi
    ensures lo <= Mean(v) <= hi
  {
    SumRBounds(v, lo, hi);
    MeanBetween(SumR(v), |v|, lo, hi);
  }

  /** `m` holds the series of `s0` with the readings of `temps` appended, except for the
      sensors still `pending`. */
  ghost predicate AppendedExcept(s0: map<string, seq<real>>, temps: map<string, real>, n: int, pending: set<string>, m: map<string, seq<real>>)
    requires n >= 1
  {
    forall s ::
      && (s in m <==> s in s0 || (s in temps && s !in pending))
      && (s in m ==> m[s] == if s in temps && s !in pending then Window(if s in s0 then s0[s] else [], temps[s], n) else s0[s])
  }

  lemma AppendedStep(s0: map<string, seq<real>>, temps: map<string, real>, n: int, pending: set<string>, m: map<string, seq<real>>, sensor: string)
    requires n >= 1 && AppendedExcept(s0, temps, n, pending, m) && sensor in pending && sensor in temps
    ensures AppendedExcept(s0, temps, n, pending - {sensor}, m[sensor := Window(if sensor in m then m[sensor] else [], temps[sensor], n)])
  {
  }

  /** `m` holds the stamps of `l0` with the sensors of `temps` stamped `c`, except for the
      sensors still `pending`. */
  ghost predicate StampedExcept(l0: map<string, int>, temps: map<string, real>, c: int, pending: set<string>, m: map<string, int>) {
    forall s ::
      && (s in m <==> s in l0 || (s in temps && s !in pending))
      && (s in m ==> m[s] == if s in temps && s !in pending then c else l0[s])
  }

  lemma StampedStep(l0: map<string, int>, temps: map<string, real>, c: int, pending: set<string>, m: map<string, int>, sensor: string)
    requires StampedExcept(l0, temps, c, pending, m) && sensor in pending && sensor in temps
    ensures StampedExcept(l0, temps, c, pending - {sensor}, m[sensor := c])
  {
  }

  /** `ms` and `ml` are `a` and `l` with the stale sensors of `a` dropped, except for the
      sensors still `pending`. */
  ghost predicate EvictedExcept(a: map<string, seq<real>>, l: map<string, int>, cutoff: int, pending: set<string>,
                                ms: map<string, seq<real>>, ml: map<string, int>) {
    forall s ::
      && (s in ms <==> s in a && !(s !in pending && Stale(l, s, cutoff)))
      && (s in ms ==> ms[s] == a[s])
      && (s in ml <==> s in l && !(s in a && s !in pending && Stale(l, s, cutoff)))
      && (s in ml ==> ml[s] == l[s])
  }

  lemma EvictStep(a: map<string, seq<real>>, l: map<string, int>, cutoff: int, pending: set<string>,
                  ms: map<string, seq<real>>, ml: map<string, int>, sensor: string)
    requires EvictedExcept(a, l, cutoff, pending, ms, ml) && sensor in pending && sensor in a
    ensures Stale(ml, sensor, cutoff) ==> EvictedExcept(a, l, cutoff, pending - {sensor}, ms - {sensor}, ml - {sensor})
    ensures !Stale(ml, sensor, cutoff) ==> EvictedExcept(a, l, cutoff, pending - {sensor}, ms, ml)
  {
    assert Stale(ml, sensor, cutoff) == Stale(l, sensor, cutoff);
  }

  /** The two loops of an update, chained: the update `Updated` describes, which keeps the
      history well formed. */
  lemma UpdateSteps(s0: map<string, seq<real>>, l0: map<string, int>, c0: int, temps: map<string, real>, n: int,
                    a: map<string, seq<real>>, l: map<string, int>, c: int, cutoff: int,
                    ms: map<string, seq<real>>, ml: map<string, int>)
    requires n >= 1 && WellFormed(History(s0, l0, c0), n) && |temps| > 0 && c == c0 + 1 && cutoff == c - n
    requires AppendedExcept(s0, temps, n, {}, a)
    requires StampedExcept(l0, temps, c, {}, l)
    requires EvictedExcept(a, l, cutoff, {}, ms, ml)
    ensures Updated(History(s0, l0, c0), temps, n, History(ms, ml, c))
    ensures WellFormed(History(ms, ml, c), n)
  {
    var h := History(s0, l0, c0);
    forall s
      ensures s in ms <==> Kept(h, temps, n, s)
      ensures s in ml <==> Kept(h, temps, n, s)
      ensures s in ms ==> ms[s] == SeriesAfter(h, temps, n, s)
      ensures s in ml ==> ml[s] == SeenAfter(h, temps, s)
    {
      ComposedAt(s0, l0, c0, temps, n, a, l, c, cutoff, ms, ml, s);
    }
    UpdateWellFormed(h, temps, n, History(ms, ml, c));
  }

  lemma ComposedAt(s0: map<string, seq<real>>, l0: map<string, int>, c0: int, temps: map<string, real>, n: int,
                   a: map<string, seq<real>>, l: map<string, int>, c: int, cutoff: int,
                   ms: map<string, seq<real>>, ml: map<string, int>, s: string)
    requires n >= 1 && s0.Keys == l0.Keys && c == c0 + 1 && cutoff == c - n
    requires AppendedExcept(s0, temps, n, {}, a)
    requires StampedExcept(l0, temps, c, {}, l)
    requires EvictedExcept(a, l, cutoff, {}, ms, ml)
    ensures s in ms <==> Kept(History(s0, l0, c0), temps, n, s)
    ensures s in ml <==> Kept(History(s0, l0, c0), temps, n, s)
    ensures s in ms ==> ms[s] == SeriesAfter(History(s0, l0, c0), temps, n, s)
    ensures s in ml ==> ml[s] == SeenAfter(History(s0, l0, c0), temps, s)
  {
    assert s in s0 <==> s in l0;
    assert s in a <==> s in s0 || s in temps;
    assert s in l <==> s in l0 || s in temps;
    assert Stale(l, s, cutoff) == (SeenAfter(History(s0, l0, c0), temps, s) <= cutoff);
  }

  class TemperatureHistory {
    const maxSamples: int
    var samples: map<string, seq<real>>
    var lastSeen: map<string, int>
    var cycle: int

    function State(): History
      reads this
    {
      History(samples, lastSeen, cycle)
    }

    ghost predicate Valid()
      reads this
    {
      maxSamples >= 1 && WellFormed(State(), maxSamples)
    }

    /** The window size is the requested one, and at least 1. */
    constructor(requested: int)
      ensures maxSamples == if requested >= 1 then requested else 1
      ensures samples == map[] && lastSeen == map[] && cycle == 0
      ensures Valid()
    {
      maxSamples := if requested >= 1 then requested else 1;
      samples := map[];
      lastSeen := map[];
      cycle := 0;
    }

    /** Records one snapshot of readings and forgets the sensors gone silent. */
    method Update(temps: map<string, real>)
      requires Valid()
      modifies this
      ensures Valid()
      ensures Updated(old(State()), temps, maxSamples, State())
    {
      if |temps| == 0 {
        return;
      }
      ghost var s0, l0, c0 := samples, lastSeen, cycle;
      cycle := cycle + 1;
      AppendAll(temps);
      ghost var appended, seen := samples, lastSeen;
      var staleCutoff := cycle - maxSamples;
      EvictStale(staleCutoff);
      UpdateSteps(s0, l0, c0, temps, maxSamples, appended, seen, cycle, staleCutoff, samples, lastSeen);
    }

    /** The first loop: every reading joins its sensor's window and stamps the sensor
        with the current cycle. */
    method AppendAll(temps: map<string, real>)
      requires maxSamples >= 1
      modifies this`samples, this`lastSeen
      ensures AppendedExcept(old(samples), temps, maxSamples, {}, samples)
      ensures StampedExcept(old(lastSeen), temps, cycle, {}, lastSeen)
    {
      var pending := temps.Keys;
      while pending != {}
        invariant pending <= temps.Keys
        invariant AppendedExcept(old(samples), temps, maxSamples, pending, samples)
        invariant StampedExcept(old(lastSeen), temps, cycle, pending, lastSeen)
        decreases |pending|
      {
        var sensor :| sensor in pending;
        var series := if sensor in samples then samples[sensor] else [];
        AppendedStep(old(samples), temps, maxSamples, pending, samples, sensor);
        StampedStep(old(lastSeen), temps, cycle, pending, lastSeen, sensor);
        samples := samples[sensor := Window(series, temps[sensor], maxSamples)];
        lastSeen := lastSeen[sensor := cycle];
        pending := pending - {sensor};
      }
    }

    /** The second loop: each series whose sensor has not reported within the window is
        dropped, with its last-seen entry. */
    method EvictStale(cutoff: int)
      modifies this`samples, this`lastSeen
      ensures EvictedExcept(old(samples), old(lastSeen), cutoff, {}, samples, lastSeen)
    {
      var pending := samples.Keys;
      while pending != {}
        invariant pending <= old(samples).Keys
        invariant EvictedExcept(old(samples), old(lastSeen), cutoff, pending, samples, lastSeen)
        decreases |pending|
      {
        var sensor :| sensor in pending;
        EvictStep(old(samples), old(lastSeen), cutoff, pending, samples, lastSeen, sensor);
        if (if sensor in lastSeen then lastSeen[sensor] else 0) <= cutoff {
          samples := samples - {sensor};
          lastSeen := lastSeen - {sensor};
        }
        pending := pending - {sensor};
      }
    }

    /** The mean of every non-empty series; no entry at all when nothing is recorded. */
    function Averaged(): (r: map<string, real>)
      reads this
      ensures |samples| == 0 ==> r == map[]
      ensures r.Keys == set s | s in samples && |samples[s]| > 0
      ensures forall s :: s in r ==> r[s] * (|samples[s]| as real) == SumR(samples[s])
    {
      map s | s in samples && |samples[s]| > 0 :: Mean(samples[s])
    }
  }

  /** When every recorded reading lies in `[lo, hi]`, so does every average. */
  lemma AveragesWithin(h: TemperatureHistory, lo: real, hi: real)
    requires forall s, i :: s in h.samples && 0 <= i < |h.samples[s]| ==> lo <= h.samples[s][i] <= hi
    ensures forall s :: s in h.Averaged() ==> lo <= h.Averaged()[s] <= hi
  {
    forall s | s in h.Averaged()
      ensures lo <= h.Averaged()[s] <= hi
    {
      MeanWithin(h.samples[s], lo, hi);
    }
  }
}
