/**
 * Low-level pwm and tachometer access: percent/pwm conversion, the backup and restore of the
 * `pwmN_enable` modes, the per-role speed writes, and the per-role readings.
 * Every write sequence is described by a list of `Write`s, one per configured fan, applied
 * to the sysfs file contents in order by `ApplyWrites`.
 */
module FanIO {
  import opened Wrappers
  import opened Text
  import opened Config
  import opened SysfsUtils
  import Sysfs

  function Clamp(lo: int, hi: int, x: int): int {
    if x < lo then lo else if x > hi then hi else x
  }

  /** `_percent_to_pwm`: the clamped percentage scaled to 0..255, truncated. */
  function PercentToPwm(percent: int): (r: int)
    ensures var p := Clamp(0, 100, percent); 100 * r <= 255 * p < 100 * r + 100
    ensures 0 <= r <= 255
  {
    Clamp(0, 100, percent) * 255 / 100
  }

  /** `_pwm_to_percent`: the clamped pwm value scaled to 0..100 and rounded to the nearest
      integer. A tie never occurs (`200 * v` is never an odd multiple of 255), so Python's
      round-half-to-even rounds to the nearest integer here. */
  function PwmToPercent(pwm: int): (r: int)
    ensures var v := Clamp(0, 255, pwm); -255 < 2 * (255 * r - 100 * v) < 255
    ensures 0 <= r <= 100
  {
    (200 * Clamp(0, 255, pwm) + 255) / 510
  }

  lemma ConversionEndpoints()
    ensures PercentToPwm(0) == 0 && PercentToPwm(100) == 255
    ensures PwmToPercent(0) == 0 && PwmToPercent(255) == 100
  {
  }

  /** A higher percentage never gives a lower pwm value, nor a higher pwm value a lower percentage. */
  lemma ConversionsMonotone(a: int, b: int)
    requires a <= b
    ensures PercentToPwm(a) <= PercentToPwm(b)
    ensures PwmToPercent(a) <= PwmToPercent(b)
  {
    var p, q := Clamp(0, 100, a), Clamp(0, 100, b);
    assert p * 255 <= q * 255;
    var v, w := Clamp(0, 255, a), Clamp(0, 255, b);
    assert 200 * v + 255 <= 200 * w + 255;
    DivMonotone(p * 255, q * 255, 100);
    DivMonotone(200 * v + 255, 200 * w + 255, 510);
  }

  lemma DivMonotone(x: int, y: int, d: int)
    requires 0 <= x <= y && d > 0
    ensures x / d <= y / d
  {
    var a, b := x / d, y / d;
    assert a * d <= x && y < b * d + d;
    if a > b {
      MulMonotone(b + 1, a, d);
    }
  }

  /** Writing a percentage and reading the pwm value back gives the clamped percentage again. */
  lemma PercentPwmRoundTrip(percent: int)
    ensures PwmToPercent(PercentToPwm(percent)) == Clamp(0, 100, percent)
  {
    var p := Clamp(0, 100, percent);
    var v := PercentToPwm(percent);
    var r := PwmToPercent(v);
    assert 100 * v <= 255 * p < 100 * v + 100;
    assert -255 < 2 * (255 * r - 100 * v) < 255;
    assert 255 * r < 100 * v + 128 <= 255 * p + 128;
    assert 255 * r > 100 * v - 128 > 255 * p - 228;
  }

  // ---------------------------------------------------------------------------------------
  // Write sequences

  /** What one fan contributes to a write sequence: nothing, or `value` written to `path`. */
  datatype Write = Skip | Put(path: string, value: string)

  /** Whether `open(p, 'w').write(...)` succeeds on a tree whose files are `keys`. */
  predicate Writable(fs: Sysfs.Sysfs, keys: set<string>, p: string) {
    p != "" && fs.Realpath(p) in keys && fs.Realpath(p) !in fs.unwritable
  }

  /** The file contents after the writes in order; a failing write changes nothing. */
  function ApplyWrites(fs: Sysfs.Sysfs, files: map<string, string>, ws: seq<Write>): map<string, string> {
    if |ws| == 0 then files
    else
      var g := ApplyWrites(fs, files, ws[..|ws| - 1]);
      var w := ws[|ws| - 1];
      if w.Put? && Writable(fs, g.Keys, w.path) then g[fs.Realpath(w.path) := w.value] else g
  }

  /** No write in the sequence fails. */
  predicate AllWritten(fs: Sysfs.Sysfs, keys: set<string>, ws: seq<Write>) {
    forall i :: 0 <= i < |ws| && ws[i].Put? ==> Writable(fs, keys, ws[i].path)
  }

  /** The value of the last successful write aimed at the file `q`. */
  function LastWrite(fs: Sysfs.Sysfs, keys: set<string>, ws: seq<Write>, q: string): Option<string> {
    if |ws| == 0 then None
    else
      var w := ws[|ws| - 1];
      if w.Put? && Writable(fs, keys, w.path) && fs.Realpath(w.path) == q then Some(w.value)
      else LastWrite(fs, keys, ws[..|ws| - 1], q)
  }

  /** Writes never create or remove files, and each file ends with the last value written to it. */
  lemma {:induction false} ApplyWritesAt(fs: Sysfs.Sysfs, files: map<string, string>, ws: seq<Write>)
    ensures ApplyWrites(fs, files, ws).Keys == files.Keys
    ensures forall q :: q in files ==>
      ApplyWrites(fs, files, ws)[q] == LastWrite(fs, files.Keys, ws, q).GetOr(files[q])
  {
    if |ws| > 0 {
      ApplyWritesAt(fs, files, ws[..|ws| - 1]);
    }
  }

  /** Applying the same writes a second time changes nothing: the helpers are idempotent. */
  lemma ApplyWritesIdempotent(fs: Sysfs.Sysfs, files: map<string, string>, ws: seq<Write>)
    ensures ApplyWrites(fs, ApplyWrites(fs, files, ws), ws) == ApplyWrites(fs, files, ws)
  {
    var g := ApplyWrites(fs, files, ws);
    ApplyWritesAt(fs, files, ws);
    ApplyWritesAt(fs, g, ws);
    forall q | q in g
      ensures ApplyWrites(fs, g, ws)[q] == g[q]
    {
    }
  }

  /** A fan's write that succeeds and is not followed by another write to the same file
      decides that file's final contents. */
  lemma {:induction false} LastWriteIs(fs: Sysfs.Sysfs, keys: set<string>, ws: seq<Write>, k: nat)
    requires k < |ws| && ws[k].Put? && Writable(fs, keys, ws[k].path)
    requires forall j :: k < j < |ws| && ws[j].Put? ==> fs.Realpath(ws[j].path) != fs.Realpath(ws[k].path)
    ensures LastWrite(fs, keys, ws, fs.Realpath(ws[k].path)) == Some(ws[k].value)
  {
    if k < |ws| - 1 {
      LastWriteIs(fs, keys, ws[..|ws| - 1], k);
    }
  }

  /** A file no write is aimed at keeps its contents. */
  lemma {:induction false} LastWriteNone(fs: Sysfs.Sysfs, keys: set<string>, ws: seq<Write>, q: string)
    requires forall j :: 0 <= j < |ws| && ws[j].Put? ==> fs.Realpath(ws[j].path) != q
    ensures LastWrite(fs, keys, ws, q) == None
  {
    if |ws| > 0 {
      LastWriteNone(fs, keys, ws[..|ws| - 1], q);
    }
  }

  lemma ApplyWritesKeys(fs: Sysfs.Sysfs, files: map<string, string>, ws: seq<Write>)
    ensures ApplyWrites(fs, files, ws).Keys == files.Keys
  {
    ApplyWritesAt(fs, files, ws);
  }

  /** `open(p, 'r').read()` on a tree whose file contents are `files`. */
  function ReadIn(fs: Sysfs.Sysfs, files: map<string, string>, p: string): Option<string> {
    var q := fs.Realpath(p);
    if p != "" && q in files && q !in fs.unreadable then Some(files[q]) else None
  }

  /** The mode `enable_modes_from_config` puts a fan in: automatic (`2`) for a cpu fan when
      `cpu_auto` is set, manual (`1`) otherwise. */
  function ModeWrite(fan: Fan, cpuAuto: bool): Write {
    if fan.enablePath == "" then Skip
    else Put(fan.enablePath, if fan.role == "cpu" && cpuAuto then "2" else "1")
  }

  function ModeWrites(fans: seq<Fan>, cpuAuto: bool): seq<Write> {
    seq(|fans|, i requires 0 <= i < |fans| => ModeWrite(fans[i], cpuAuto))
  }

  /** The value `restore_automatic_mode` writes back: the saved mode, else automatic (`2`). */
  function RestoreWrite(fan: Fan, saved: Option<map<string, string>>): Write {
    if fan.enablePath == "" then Skip
    else if saved.Some? && fan.enablePath in saved.value then Put(fan.enablePath, saved.value[fan.enablePath])
    else Put(fan.enablePath, "2")
  }

  function RestoreWrites(fans: seq<Fan>, saved: Option<map<string, string>>): seq<Write> {
    seq(|fans|, i requires 0 <= i < |fans| => RestoreWrite(fans[i], saved))
  }

  /** The write `set_fan_speeds_by_role` makes for one fan: its role's clamped target, as a
      pwm value in decimal, unless the role is not controlled, is left to the firmware, or
      has no target. */
  function SpeedWrite(fan: Fan, speedMap: map<string, int>, roles: set<string>, cpuAuto: bool): Write {
    if fan.role !in roles || (fan.role == "cpu" && cpuAuto) || fan.role !in speedMap then Skip
    else Put(fan.pwmPath, IntToString(PercentToPwm(Clamp(0, 100, speedMap[fan.role]))))
  }

  function SpeedWrites(fans: seq<Fan>, speedMap: map<string, int>, roles: set<string>, cpuAuto: bool): seq<Write> {
    seq(|fans|, i requires 0 <= i < |fans| => SpeedWrite(fans[i], speedMap, roles, cpuAuto))
  }

  /** The saved modes after `backup_current_pwm_mode` has visited `fans`: an enable path not
      saved yet gets the stripped text it reads; one already saved, or unreadable, is left. */
  function Backup(fs: Sysfs.Sysfs, files: map<string, string>, fans: seq<Fan>, saved: map<string, string>): map<string, string> {
    if |fans| == 0 then saved
    else
      var m := Backup(fs, files, fans[..|fans| - 1], saved);
      var ep := fans[|fans| - 1].enablePath;
      if ep == "" || ep in m then m
      else match ReadIn(fs, files, ep)
        case None => m
        case Some(t) => m[ep := Strip(t)]
  }

  /** First capture wins: a saved mode is never replaced; every new entry is a readable
      enable path of one of the fans holding the stripped text of that attribute; and every
      readable enable path is saved afterwards. */
  lemma BackupSound(fs: Sysfs.Sysfs, files: map<string, string>, fans: seq<Fan>, saved: map<string, string>)
    ensures var m := Backup(fs, files, fans, saved);
      && (forall ep :: ep in saved ==> ep in m && m[ep] == saved[ep])
      && (forall ep :: ep in m && ep !in saved ==>
            ReadIn(fs, files, ep).Some? && m[ep] == Strip(ReadIn(fs, files, ep).value)
            && exists i :: 0 <= i < |fans| && fans[i].enablePath == ep)
      && (forall i :: 0 <= i < |fans| && fans[i].enablePath != "" && ReadIn(fs, files, fans[i].enablePath).Some? ==>
            fans[i].enablePath in m)
  {
    BackupKeeps(fs, files, fans, saved);
    BackupNew(fs, files, fans, saved);
    BackupComplete(fs, files, fans, saved);
  }

  lemma {:induction false} BackupKeeps(fs: Sysfs.Sysfs, files: map<string, string>, fans: seq<Fan>, saved: map<string, string>)
    ensures var m := Backup(fs, files, fans, saved);
      forall ep :: ep in saved ==> ep in m && m[ep] == saved[ep]
  {
    if |fans| > 0 {
      BackupKeeps(fs, files, fans[..|fans| - 1], saved);
    }
  }

  lemma {:induction false} BackupNew(fs: Sysfs.Sysfs, files: map<string, string>, fans: seq<Fan>, saved: map<string, string>)
    ensures var m := Backup(fs, files, fans, saved);
      forall ep :: ep in m && ep !in saved ==>
        ReadIn(fs, files, ep).Some? && m[ep] == Strip(ReadIn(fs, files, ep).value)
        && exists i :: 0 <= i < |fans| && fans[i].enablePath == ep
  {
    if |fans| > 0 {
      var init := fans[..|fans| - 1];
      BackupNew(fs, files, init, saved);
      var prev := Backup(fs, files, init, saved);
      var m := Backup(fs, files, fans, saved);
      forall ep | ep in m && ep !in saved
        ensures ReadIn(fs, files, ep).Some? && m[ep] == Strip(ReadIn(fs, files, ep).value)
        ensures exists i :: 0 <= i < |fans| && fans[i].enablePath == ep
      {
        if ep in prev {
          var i :| 0 <= i < |init| && init[i].enablePath == ep;
          assert fans[i] == init[i];
        } else {
          assert fans[|fans| - 1].enablePath == ep;
        }
      }
    }
  }

  lemma {:induction false} BackupComplete(fs: Sysfs.Sysfs, files: map<string, string>, fans: seq<Fan>, saved: map<string, string>)
    ensures var m := Backup(fs, files, fans, saved);
      forall i :: 0 <= i < |fans| && fans[i].enablePath != "" && ReadIn(fs, files, fans[i].enablePath).Some? ==>
        fans[i].enablePath in m
  {
    if |fans| > 0 {
      var init := fans[..|fans| - 1];
      BackupComplete(fs, files, init, saved);
      var m := Backup(fs, files, fans, saved);
      forall i | 0 <= i < |fans| && fans[i].enablePath != "" && ReadIn(fs, files, fans[i].enablePath).Some?
        ensures fans[i].enablePath in m
      {
        if i < |init| {
          assert init[i] == fans[i];
        }
      }
    }
  }

  /** Restoring after a first backup puts every enable attribute the backup could read back to
      the mode it read, provided the attribute can be written, whatever was written to it in
      between. */
  lemma BackupRestore(fs: Sysfs.Sysfs, files: map<string, string>, later: map<string, string>, fans: seq<Fan>, k: nat)
    requires later.Keys == files.Keys
    requires k < |fans| && fans[k].enablePath != "" && ReadIn(fs, files, fans[k].enablePath).Some?
    requires Writable(fs, files.Keys, fans[k].enablePath)
    ensures var saved := Backup(fs, files, fans, map[]);
      var after := ApplyWrites(fs, later, RestoreWrites(fans, Some(saved)));
      fs.Realpath(fans[k].enablePath) in after && after[fs.Realpath(fans[k].enablePath)] == Strip(ReadIn(fs, files, fans[k].enablePath).value)
  {
    var saved := Backup(fs, files, fans, map[]);
    var ws := RestoreWrites(fans, Some(saved));
    var q := fs.Realpath(fans[k].enablePath);
    var t := Strip(ReadIn(fs, files, fans[k].enablePath).value);
    BackupSound(fs, files, fans, map[]);
    // every fan whose enable attribute is the file q restores t
    forall j | 0 <= j < |fans| && ws[j].Put? && fs.Realpath(ws[j].path) == q
      ensures ws[j].value == t && Writable(fs, later.Keys, ws[j].path)
    {
      assert fans[j].enablePath != "" && ReadIn(fs, files, fans[j].enablePath).Some?;
      assert fans[j].enablePath in saved;
    }
    var last := LastIndex(fs, ws, q, k);
    LastWriteIs(fs, later.Keys, ws, last);
    ApplyWritesAt(fs, later, ws);
  }

  /** The last position of the write sequence aimed at `q`, given one at `k`. */
  lemma {:induction false} LastIndex(fs: Sysfs.Sysfs, ws: seq<Write>, q: string, k: nat) returns (last: nat)
    requires k < |ws| && ws[k].Put? && fs.Realpath(ws[k].path) == q
    ensures k <= last < |ws| && ws[last].Put? && fs.Realpath(ws[last].path) == q
    ensures forall j :: last < j < |ws| && ws[j].Put? ==> fs.Realpath(ws[j].path) != q
    decreases |ws| - k
  {
    if exists j :: k < j < |ws| && ws[j].Put? && fs.Realpath(ws[j].path) == q {
      var j :| k < j < |ws| && ws[j].Put? && fs.Realpath(ws[j].path) == q;
      last := LastIndex(fs, ws, q, j);
    } else {
      last := k;
    }
  }

  // ---------------------------------------------------------------------------------------
  // Readings

  function Sum(v: seq<int>): int {
    if |v| == 0 then 0 else Sum(v[..|v| - 1]) + v[|v| - 1]
  }

  /** Append `x` to the samples of `role` (`setdefault(role, []).append(x)`). */
  function AddSample(m: map<string, seq<int>>, role: string, x: int): map<string, seq<int>> {
    m[role := (if role in m then m[role] else []) + [x]]
  }

  /** The percentage a fan's pwm attribute currently reads as, if it reads as an integer. */
  function PwmSample(fs: Sysfs.Sysfs, files: map<string, string>, fan: Fan): Option<int> {
    match ReadIn(fs, files, fan.pwmPath)
    case None => None
    case Some(t) =>
      match ParseInt(t)
      case None => None
      case Some(v) => Some(PwmToPercent(v))
  }

  /** The tachometer reading of a fan, if it has one that reads as a positive integer. */
  function RpmSample(fs: Sysfs.Sysfs, files: map<string, string>, fan: Fan): Option<int> {
    if fan.rpmPath == "" then None
    else match ReadIn(fs, files, fan.rpmPath)
      case None => None
      case Some(t) =>
        match ParseInt(t)
        case None => None
        case Some(v) => if v > 0 then Some(v) else None
  }

  function SpeedSamples(fs: Sysfs.Sysfs, files: map<string, string>, fans: seq<Fan>, roles: set<string>): map<string, seq<int>> {
    if |fans| == 0 then map[]
    else
      var m := SpeedSamples(fs, files, fans[..|fans| - 1], roles);
      var fan := fans[|fans| - 1];
      if fan.role !in roles then m
      else match PwmSample(fs, files, fan)
        case None => m
        case Some(p) => AddSample(m, fan.role, p)
  }

  function RpmSamples(fs: Sysfs.Sysfs, files: map<string, string>, fans: seq<Fan>, roles: set<string>): map<string, seq<int>> {
    if |fans| == 0 then map[]
    else
      var m := RpmSamples(fs, files, fans[..|fans| - 1], roles);
      var fan := fans[|fans| - 1];
      if fan.role !in roles then m
      else match RpmSample(fs, files, fan)
        case None => m
        case Some(p) => AddSample(m, fan.role, p)
  }

  /** `{r: int(sum(v)/len(v)) for r, v in ... if v}`; every sample is non-negative, so the
      truncating division is the floor. */
  function Averages(m: map<string, seq<int>>): map<string, int> {
    map r | r in m && |m[r]| > 0 :: Sum(m[r]) / |m[r]|
  }

  ghost predicate SamplesWithin(m: map<string, seq<int>>, roles: set<string>, lo: int, hi: int) {
    forall r :: r in m ==> r in roles && |m[r]| > 0 && forall i :: 0 <= i < |m[r]| ==> lo <= m[r][i] <= hi
  }

  lemma {:induction false} SpeedSamplesWithin(fs: Sysfs.Sysfs, files: map<string, string>, fans: seq<Fan>, roles: set<string>)
    ensures SamplesWithin(SpeedSamples(fs, files, fans, roles), roles, 0, 100)
  {
    if |fans| > 0 {
      var fan := fans[|fans| - 1];
      SpeedSamplesWithin(fs, files, fans[..|fans| - 1], roles);
      if fan.role in roles && PwmSample(fs, files, fan).Some? {
        AddSampleWithin(SpeedSamples(fs, files, fans[..|fans| - 1], roles), roles, 0, 100, fan.role, PwmSample(fs, files, fan).value);
      }
    }
  }

  lemma AddSampleWithin(m: map<string, seq<int>>, roles: set<string>, lo: int, hi: int, role: string, x: int)
    requires SamplesWithin(m, roles, lo, hi) && role in roles && lo <= x <= hi
    ensures SamplesWithin(AddSample(m, role, x), roles, lo, hi)
  {
    var m' := AddSample(m, role, x);
    forall r | r in m' ensures r in roles && |m'[r]| > 0 && forall i :: 0 <= i < |m'[r]| ==> lo <= m'[r][i] <= hi {
      if r == role {
        var old_ := if role in m then m[role] else [];
        assert m'[r] == old_ + [x];
        forall i | 0 <= i < |m'[r]| ensures lo <= m'[r][i] <= hi {
          if i < |old_| { assert m'[r][i] == m[role][i]; }
        }
      }
    }
  }

  lemma {:induction false} RpmSamplesWithin(fs: Sysfs.Sysfs, files: map<string, string>, fans: seq<Fan>, roles: set<string>, hi: int)
    requires forall i :: 0 <= i < |fans| ==> RpmSample(fs, files, fans[i]).Some? ==> RpmSample(fs, files, fans[i]).value <= hi
    ensures SamplesWithin(RpmSamples(fs, files, fans, roles), roles, 1, hi)
  {
    if |fans| > 0 {
      var fan := fans[|fans| - 1];
      RpmSamplesWithin(fs, files, fans[..|fans| - 1], roles, hi);
      if fan.role in roles && RpmSample(fs, files, fan).Some? {
        AddSampleWithin(RpmSamples(fs, files, fans[..|fans| - 1], roles), roles, 1, hi, fan.role, RpmSample(fs, files, fan).value);
      }
    }
  }

  lemma {:induction false} SumBounds(v: seq<int>, lo: int, hi: int)
    requires forall i :: 0 <= i < |v| ==> lo <= v[i] <= hi
    ensures lo * |v| <= Sum(v) <= hi * |v|
  {
    if |v| > 0 {
      SumBounds(v[..|v| - 1], lo, hi);
      MulSucc(lo, |v| - 1);
      MulSucc(hi, |v| - 1);
    }
  }

  lemma MulSucc(x: int, n: nat)
    ensures x * (n + 1) == x * n + x
  {
  }

  /** The floor of the mean lies between the smallest and the largest bound of the samples. */
  lemma MeanBounds(v: seq<int>, lo: int, hi: int)
    requires |v| > 0 && forall i :: 0 <= i < |v| ==> lo <= v[i] <= hi
    ensures lo <= Sum(v) / |v| <= hi
  {
    SumBounds(v, lo, hi);
    DivLower(Sum(v), |v|, lo);
    DivUpper(Sum(v), |v|, hi);
  }

  lemma DivLower(s: int, n: int, lo: int)
    requires n > 0 && lo * n <= s
    ensures lo <= s / n
  {
    var q := s / n;
    assert s < q * n + n;
    if q < lo {
      MulMonotone(q + 1, lo, n);
    }
  }

  lemma DivUpper(s: int, n: int, hi: int)
    requires n > 0 && s <= hi * n
    ensures s / n <= hi
  {
    var q := s / n;
    assert q * n <= s;
  }

  lemma MulMonotone(a: int, b: int, n: nat)
    requires a <= b
    ensures a * n <= b * n
  {
  }

  /** Every averaged role is one of the requested roles and its value is a percentage. */
  lemma SpeedAveragesWithin(fs: Sysfs.Sysfs, files: map<string, string>, fans: seq<Fan>, roles: set<string>)
    ensures var a := Averages(SpeedSamples(fs, files, fans, roles));
      forall r :: r in a ==> r in roles && 0 <= a[r] <= 100
  {
    var m := SpeedSamples(fs, files, fans, roles);
    SpeedSamplesWithin(fs, files, fans, roles);
    forall r | r in m ensures 0 <= Sum(m[r]) / |m[r]| <= 100 {
      MeanBounds(m[r], 0, 100);
    }
  }

  /** Averaged RPM: only requested roles, and at least one RPM (non-positive readings are ignored). */
  lemma RpmAveragesWithin(fs: Sysfs.Sysfs, files: map<string, string>, fans: seq<Fan>, roles: set<string>, hi: int)
    requires forall i :: 0 <= i < |fans| ==> RpmSample(fs, files, fans[i]).Some? ==> RpmSample(fs, files, fans[i]).value <= hi
    ensures var a := Averages(RpmSamples(fs, files, fans, roles));
      forall r :: r in a ==> r in roles && 1 <= a[r] <= hi
  {
    var m := RpmSamples(fs, files, fans, roles);
    RpmSamplesWithin(fs, files, fans, roles, hi);
    forall r | r in m ensures 1 <= Sum(m[r]) / |m[r]| <= hi {
      MeanBounds(m[r], 1, hi);
    }
  }

  /** A fan's speed written by `set_fan_speeds_by_role` reads back as its role's clamped target,
      when that fan's pwm attribute is readable and is the last one aimed at that file. */
  lemma SpeedReadBack(fs: Sysfs.Sysfs, files: map<string, string>, fans: seq<Fan>, speedMap: map<string, int>,
                      roles: set<string>, cpuAuto: bool, k: nat)
    requires k < |fans|
    requires SpeedWrite(fans[k], speedMap, roles, cpuAuto).Put?
    requires Writable(fs, files.Keys, fans[k].pwmPath) && fs.Realpath(fans[k].pwmPath) !in fs.unreadable
    requires forall j :: k < j < |fans| && fans[j].role in roles ==> fs.Realpath(fans[j].pwmPath) != fs.Realpath(fans[k].pwmPath)
    ensures PwmSample(fs, ApplyWrites(fs, files, SpeedWrites(fans, speedMap, roles, cpuAuto)), fans[k])
            == Some(Clamp(0, 100, speedMap[fans[k].role]))
  {
    var ws := SpeedWrites(fans, speedMap, roles, cpuAuto);
    LastWriteIs(fs, files.Keys, ws, k);
    ApplyWritesAt(fs, files, ws);
    var pwm := PercentToPwm(Clamp(0, 100, speedMap[fans[k].role]));
    ParseIntToString(pwm);
    PercentPwmRoundTrip(speedMap[fans[k].role]);
  }

  // ---------------------------------------------------------------------------------------

  /** One fan's pwm attribute as a percentage, when it reads as an integer. */
  method ReadPwmPercent(sys: Sysfs.Sysfs, fan: Fan) returns (sample: Option<int>)
    ensures sample == PwmSample(sys, sys.files, fan)
  {
    var content := sys.Read(fan.pwmPath);
    if content.None? {
      return None;
    }
    var value := ParseInt(content.value);
    if value.None? {
      return None;
    }
    return Some(PwmToPercent(value.value));
  }

  /** One fan's tachometer reading, when it has one that reads as a positive integer. */
  method ReadRpm(sys: Sysfs.Sysfs, fan: Fan) returns (sample: Option<int>)
    ensures sample == RpmSample(sys, sys.files, fan)
  {
    if fan.rpmPath == "" {
      return None;
    }
    var content := sys.Read(fan.rpmPath);
    if content.None? {
      return None;
    }
    var value := ParseInt(content.value);
    if value.None? || value.value <= 0 {
      return None;
    }
    return Some(value.value);
  }

  /** The sysfs side of the daemon: the resolved fans, the saved enable modes and the time of
      the last complete speed change. */
  class FanIO {
    const fans: seq<Fan>
    const cpuAuto: bool
    /** `None` until the first backup. */
    var originalPwmMode: Option<map<string, string>>
    var lastChangeTs: real
    /** How many times `restore_automatic_mode` has run. */
    ghost var restoreCalls: nat

    /** Resolves every configured fan's paths, whether or not each one succeeds. */
    constructor (config: DaemonConfig, sys: Sysfs.Sysfs)
      ensures |fans| == |config.fans|
      ensures forall i :: 0 <= i < |fans| ==> fans[i] == ResolveSpec(config.fans[i], sys).0
      ensures cpuAuto == config.cpuAuto && originalPwmMode == None && lastChangeTs == 0.0 && restoreCalls == 0
    {
      var resolved, _ := ResolveAllFans(config.fans, sys);
      ResolvedFansEach(config.fans, sys);
      fans := resolved;
      cpuAuto := config.cpuAuto;
      originalPwmMode := None;
      lastChangeTs := 0.0;
      restoreCalls := 0;
    }

    /** `backup_current_pwm_mode`. */
    method BackupCurrentPwmMode(sys: Sysfs.Sysfs)
      modifies this`originalPwmMode
      ensures originalPwmMode == Some(Backup(sys, sys.files, fans, old(originalPwmMode).GetOr(map[])))
    {
      var saved := originalPwmMode.GetOr(map[]);
      ghost var start := saved;
      for i := 0 to |fans|
        invariant saved == Backup(sys, sys.files, fans[..i], start)
      {
        assert fans[..i + 1][..i] == fans[..i];
        var ep := fans[i].enablePath;
        if ep != "" && ep !in saved {
          var content := sys.Read(ep);
          if content.Some? {
            saved := saved[ep := Strip(content.value)];
          }
        }
      }
      assert fans[..|fans|] == fans;
      originalPwmMode := Some(saved);
    }

    /** Run a write sequence, one write per fan; `ok` tells whether none failed. */
    method RunWrites(sys: Sysfs.Sysfs, ws: seq<Write>) returns (ok: bool)
      modifies sys`files
      ensures sys.files == ApplyWrites(sys, old(sys.files), ws)
      ensures ok == AllWritten(sys, old(sys.files).Keys, ws)
    {
      ok := true;
      ghost var start := sys.files;
      for i := 0 to |ws|
        invariant sys.files == ApplyWrites(sys, start, ws[..i])
        invariant sys.files.Keys == start.Keys
        invariant ok == AllWritten(sys, start.Keys, ws[..i])
      {
        assert ws[..i + 1][..i] == ws[..i];
        if ws[i].Put? {
          var written := sys.Write(ws[i].path, ws[i].value);
          if !written {
            ok := false;
          }
        }
        assert AllWritten(sys, start.Keys, ws[..i + 1]) <==>
               AllWritten(sys, start.Keys, ws[..i]) && (ws[i].Put? ==> Writable(sys, start.Keys, ws[i].path));
      }
      assert ws[..|ws|] == ws;
    }

    /** `enable_modes_from_config`; failed writes are skipped. */
    method EnableModesFromConfig(sys: Sysfs.Sysfs)
      modifies sys`files
      ensures sys.files == ApplyWrites(sys, old(sys.files), ModeWrites(fans, cpuAuto))
    {
      var _ := RunWrites(sys, ModeWrites(fans, cpuAuto));
    }

    /** `restore_automatic_mode`; failed writes are skipped. */
    method RestoreAutomaticMode(sys: Sysfs.Sysfs)
      modifies sys`files, this`restoreCalls
      ensures sys.files == ApplyWrites(sys, old(sys.files), RestoreWrites(fans, originalPwmMode))
      ensures restoreCalls == old(restoreCalls) + 1
    {
      var _ := RunWrites(sys, RestoreWrites(fans, originalPwmMode));
      restoreCalls := restoreCalls + 1;
    }

    /** `set_fan_speeds_by_role`: true exactly when every attempted write succeeded; only then
        is the time of the last change moved to `now`. */
    method SetFanSpeedsByRole(sys: Sysfs.Sysfs, speedMap: map<string, int>, roles: set<string>, now: real)
      returns (ok: bool)
      modifies sys`files, this`lastChangeTs
      ensures sys.files == ApplyWrites(sys, old(sys.files), SpeedWrites(fans, speedMap, roles, cpuAuto))
      ensures ok == AllWritten(sys, old(sys.files).Keys, SpeedWrites(fans, speedMap, roles, cpuAuto))
      ensures lastChangeTs == if ok then now else old(lastChangeTs)
    {
      ok := RunWrites(sys, SpeedWrites(fans, speedMap, roles, cpuAuto));
      if ok {
        lastChangeTs := now;
      }
    }

    /** `get_current_speed_by_role`: per requested role, the floor of the mean percentage its
        fans' pwm attributes read as. */
    method GetCurrentSpeedByRole(sys: Sysfs.Sysfs, roles: set<string>) returns (speeds: map<string, int>)
      ensures speeds == Averages(SpeedSamples(sys, sys.files, fans, roles))
      ensures forall r :: r in speeds ==> r in roles && 0 <= speeds[r] <= 100
    {
      var roleSpeeds: map<string, seq<int>> := map[];
      for i := 0 to |fans|
        invariant roleSpeeds == SpeedSamples(sys, sys.files, fans[..i], roles)
      {
        assert fans[..i + 1][..i] == fans[..i];
        var role := fans[i].role;
        if role in roles {
          var sample := ReadPwmPercent(sys, fans[i]);
          if sample.Some? {
            roleSpeeds := AddSample(roleSpeeds, role, sample.value);
          }
        }
      }
      assert fans[..|fans|] == fans;
      speeds := Averages(roleSpeeds);
      SpeedAveragesWithin(sys, sys.files, fans, roles);
    }

    /** `get_current_rpm_by_role`: per requested role, the floor of the mean of its fans'
        positive tachometer readings. */
    method GetCurrentRpmByRole(sys: Sysfs.Sysfs, roles: set<string>) returns (rpms: map<string, int>)
      ensures rpms == Averages(RpmSamples(sys, sys.files, fans, roles))
    {
      var roleRpms: map<string, seq<int>> := map[];
      for i := 0 to |fans|
        invariant roleRpms == RpmSamples(sys, sys.files, fans[..i], roles)
      {
        assert fans[..i + 1][..i] == fans[..i];
        var role := fans[i].role;
        if role in roles {
          var sample := ReadRpm(sys, fans[i]);
          if sample.Some? {
            roleRpms := AddSample(roleRpms, role, sample.value);
          }
        }
      }
      assert fans[..|fans|] == fans;
      rpms := Averages(roleRpms);
    }
  }
}
