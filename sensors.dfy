/**
 * The lm-sensors side of the daemon: flattening the `sensors -j` tree into one reading per
 * `adapter:sensor:tempN_input`, the sanity check on the readings, and the choice of the
 * readings that govern a fan role.
 */
module Sensors {
  import opened Wrappers
  import opened Text
  import opened Values

  /** The temperature inputs read from each sensor, in the order they are tried. */
  const TempKeys: seq<string> := ["temp1_input", "temp2_input", "temp3_input"]

  /** `any(token in name for token in tokens)`. */
  function AnyToken(name: string, tokens: seq<string>): (r: bool)
    ensures r <==> exists i :: 0 <= i < |tokens| && Contains(name, tokens[i])
  {
    if |tokens| == 0 then false
    else
      var rest := AnyToken(name, tokens[1..]);
      assert rest <==> exists i :: 1 <= i < |tokens| && Contains(name, tokens[i]) by {
        if rest {
          var i :| 0 <= i < |tokens[1..]| && Contains(name, tokens[1..][i]);
          assert Contains(name, tokens[i + 1]);
        }
        forall i | 1 <= i < |tokens| && Contains(name, tokens[i]) ensures rest {
          assert tokens[1..][i - 1] == tokens[i];
        }
      }
      Contains(name, tokens[0]) || rest
  }

  /** An adapter is read when the whitelist is empty or one of its tokens occurs in the name. */
  predicate Passes(whitelist: seq<string>, adapter: string) {
    |whitelist| == 0 || AnyToken(adapter, whitelist)
  }

  /** A value that is recorded as a temperature: a number (a bool counts as one) above zero. */
  function Reading(v: Option<Value>): (r: Option<real>)
    ensures r.Some? ==> r.value > 0.0
  {
    match v
    case None => None
    case Some(x) =>
      match AsNumber(x)
      case None => None
      case Some(t) => if t > 0.0 then Some(t) else None
  }

  function FullName(adapter: string, sensor: string, key: string): string {
    adapter + ":" + sensor + ":" + key
  }

  /** The temperature inputs of one sensor recorded into `acc`, each under its full name. */
  function KeysFold(acc: map<string, real>, adapter: string, sensor: string,
                    entries: seq<(string, Value)>, keys: seq<string>): map<string, real> {
    if |keys| == 0 then acc
    else
      var m := KeysFold(acc, adapter, sensor, entries, keys[..|keys| - 1]);
      var key := keys[|keys| - 1];
      match Reading(Get(entries, key))
      case None => m
      case Some(t) => m[FullName(adapter, sensor, key) := t]
  }

  /** Whether one of `keys` gave a reading (the `recorded` flag). */
  function AnyReading(entries: seq<(string, Value)>, keys: seq<string>): bool {
    if |keys| == 0 then false
    else AnyReading(entries, keys[..|keys| - 1]) || Reading(Get(entries, keys[|keys| - 1])).Some?
  }

  /** The source's fallbacks for a sensor without temperature inputs: a sensor whose own value
      is a positive number and whose name mentions `Tctl`, `edge` or `Composite`. */
  function Fallback(adapter: string, sensor: string, data: Value): Option<(string, real)> {
    var n := AsNumber(data);
    if Contains(sensor, "Tctl") && n.Some? then (if n.value > 0.0 then Some((adapter + ":Tctl", n.value)) else None)
    else if Contains(sensor, "edge") && n.Some? then (if n.value > 0.0 then Some((adapter + ":edge", n.value)) else None)
    else if Contains(sensor, "Composite") && n.Some? then (if n.value > 0.0 then Some((adapter + ":Composite", n.value)) else None)
    else None
  }

  /** The fallbacks are only consulted for sensors already known to be dictionaries, and a
      dictionary is not a number, so they never record anything. */
  lemma FallbackNeverFires(adapter: string, sensor: string, data: Value)
    requires data.Dict?
    ensures Fallback(adapter, sensor, data) == None
  {
  }

  function SensorStep(acc: map<string, real>, adapter: string, s: (string, Value)): map<string, real> {
    if !s.1.Dict? then acc
    else
      var m := KeysFold(acc, adapter, s.0, s.1.entries, TempKeys);
      if AnyReading(s.1.entries, TempKeys) then m
      else match Fallback(adapter, s.0, s.1)
        case None => m
        case Some(p) => m[p.0 := p.1]
  }

  function SensorsFold(acc: map<string, real>, adapter: string, sensors: seq<(string, Value)>): map<string, real> {
    if |sensors| == 0 then acc
    else SensorStep(SensorsFold(acc, adapter, sensors[..|sensors| - 1]), adapter, sensors[|sensors| - 1])
  }

  function AdapterStep(whitelist: seq<string>, acc: map<string, real>, a: (string, Value)): map<string, real> {
    if !Passes(whitelist, a.0) || !a.1.Dict? then acc else SensorsFold(acc, a.0, a.1.entries)
  }

  function AdaptersFold(whitelist: seq<string>, adapters: seq<(string, Value)>): map<string, real> {
    if |adapters| == 0 then map[]
    else AdapterStep(whitelist, AdaptersFold(whitelist, adapters[..|adapters| - 1]), adapters[|adapters| - 1])
  }

  /** `extract_temperatures`. An empty input gives no readings; so does an input that is not
      a dictionary, whose `.items()` raises inside the guarded block. */
  function Extract(whitelist: seq<string>, data: Value): map<string, real> {
    if !Truthy(data) || !data.Dict? then map[] else AdaptersFold(whitelist, data.entries)
  }

  method ExtractTemperatures(whitelist: seq<string>, data: Value) returns (temperatures: map<string, real>)
    ensures temperatures == Extract(whitelist, data)
  {
    temperatures := map[];
    if !Truthy(data) || !data.Dict? {
      return;
    }
    var adapters := data.entries;
    for i := 0 to |adapters|
      invariant temperatures == AdaptersFold(whitelist, adapters[..i])
    {
      assert adapters[..i + 1][..i] == adapters[..i];
      var (adapterName, adapterData) := adapters[i];
      if |whitelist| > 0 && !AnyToken(adapterName, whitelist) {
        continue;
      }
      if !adapterData.Dict? {
        continue;
      }
      var sensors := adapterData.entries;
      ghost var start := temperatures;
      for j := 0 to |sensors|
        invariant temperatures == SensorsFold(start, adapterName, sensors[..j])
      {
        assert sensors[..j + 1][..j] == sensors[..j];
        var (sensorName, sensorData) := sensors[j];
        if !sensorData.Dict? {
          continue;
        }
        var recorded := false;
        ghost var before := temperatures;
        for k := 0 to |TempKeys|
          invariant temperatures == KeysFold(before, adapterName, sensorName, sensorData.entries, TempKeys[..k])
          invariant recorded == AnyReading(sensorData.entries, TempKeys[..k])
        {
          assert TempKeys[..k + 1][..k] == TempKeys[..k];
          var tempValue := Reading(Get(sensorData.entries, TempKeys[k]));
          if tempValue.Some? {
            temperatures := temperatures[FullName(adapterName, sensorName, TempKeys[k]) := tempValue.value];
            recorded := true;
          }
        }
        assert TempKeys[..|TempKeys|] == TempKeys;
        if recorded {
          continue;
        }
        match Fallback(adapterName, sensorName, sensorData)
        case None =>
        case Some((name, value)) => temperatures := temperatures[name := value];
      }
      assert sensors[..|sensors|] == sensors;
    }
    assert adapters[..|adapters|] == adapters;
  }

  // ---------------------------------------------------------------------------------------
  // What the flattened map holds

  /** `n` is the full name of temperature input `keys[k]` of the given sensor, reading `r`. */
  ghost predicate KeyProduces(adapter: string, sensor: string, entries: seq<(string, Value)>, keys: seq<string>,
                              n: string, r: real) {
    exists k :: 0 <= k < |keys| && Reading(Get(entries, keys[k])) == Some(r) && n == FullName(adapter, sensor, keys[k])
  }

  /** ... of some dictionary sensor of the adapter. */
  ghost predicate SensorProduces(adapter: string, sensors: seq<(string, Value)>, n: string, r: real) {
    exists j :: 0 <= j < |sensors| && sensors[j].1.Dict? && KeyProduces(adapter, sensors[j].0, sensors[j].1.entries, TempKeys, n, r)
  }

  /** ... of some dictionary sensor of some whitelisted dictionary adapter. */
  ghost predicate AdapterProduces(whitelist: seq<string>, adapters: seq<(string, Value)>, n: string, r: real) {
    exists i :: 0 <= i < |adapters| && Passes(whitelist, adapters[i].0) && adapters[i].1.Dict?
      && SensorProduces(adapters[i].0, adapters[i].1.entries, n, r)
  }

  ghost predicate Positive(m: map<string, real>) {
    forall n :: n in m ==> m[n] > 0.0
  }

  lemma {:induction false} KeysFoldSound(acc: map<string, real>, adapter: string, sensor: string,
                                         entries: seq<(string, Value)>, keys: seq<string>)
    ensures var m := KeysFold(acc, adapter, sensor, entries, keys);
      && acc.Keys <= m.Keys
      && (Positive(acc) ==> Positive(m))
      && (forall n :: n in m ==> (n in acc && m[n] == acc[n]) || KeyProduces(adapter, sensor, entries, keys, n, m[n]))
      && (forall n, r :: KeyProduces(adapter, sensor, entries, keys, n, r) ==> n in m)
      && (!AnyReading(entries, keys) ==> m == acc)
  {
    if |keys| > 0 {
      var init := keys[..|keys| - 1];
      var key := keys[|keys| - 1];
      KeysFoldSound(acc, adapter, sensor, entries, init);
      var mid := KeysFold(acc, adapter, sensor, entries, init);
      var m := KeysFold(acc, adapter, sensor, entries, keys);
      forall n | n in m && !(n in acc && m[n] == acc[n])
        ensures KeyProduces(adapter, sensor, entries, keys, n, m[n])
      {
        if n == FullName(adapter, sensor, key) && Reading(Get(entries, key)).Some? {
          assert keys[|keys| - 1] == key;
        } else {
          assert n in mid && m[n] == mid[n];
          var k :| 0 <= k < |init| && Reading(Get(entries, init[k])) == Some(mid[n]) && n == FullName(adapter, sensor, init[k]);
          assert keys[k] == init[k];
        }
      }
      forall n, r | KeyProduces(adapter, sensor, entries, keys, n, r) ensures n in m {
        var k :| 0 <= k < |keys| && Reading(Get(entries, keys[k])) == Some(r) && n == FullName(adapter, sensor, keys[k]);
        if k < |init| {
          assert init[k] == keys[k];
          assert KeyProduces(adapter, sensor, entries, init, n, r);
        }
      }
    }
  }

  /** One sensor's step: it only adds readings of its own temperature inputs. */
  lemma SensorStepSound(acc: map<string, real>, adapter: string, s: (string, Value))
    ensures var m := SensorStep(acc, adapter, s);
      && acc.Keys <= m.Keys
      && (Positive(acc) ==> Positive(m))
      && (forall n :: n in m ==>
            (n in acc && m[n] == acc[n]) || (s.1.Dict? && KeyProduces(adapter, s.0, s.1.entries, TempKeys, n, m[n])))
      && (forall n, r :: s.1.Dict? && KeyProduces(adapter, s.0, s.1.entries, TempKeys, n, r) ==> n in m)
  {
    if s.1.Dict? {
      KeysFoldSound(acc, adapter, s.0, s.1.entries, TempKeys);
      FallbackNeverFires(adapter, s.0, s.1);
    }
  }

  lemma {:induction false} SensorsFoldSound(acc: map<string, real>, adapter: string, sensors: seq<(string, Value)>)
    ensures var m := SensorsFold(acc, adapter, sensors);
      && acc.Keys <= m.Keys
      && (Positive(acc) ==> Positive(m))
      && (forall n :: n in m ==> (n in acc && m[n] == acc[n]) || SensorProduces(adapter, sensors, n, m[n]))
  {
    if |sensors| > 0 {
      var init := sensors[..|sensors| - 1];
      var s := sensors[|sensors| - 1];
      SensorsFoldSound(acc, adapter, init);
      var mid := SensorsFold(acc, adapter, init);
      SensorStepSound(mid, adapter, s);
      var m := SensorsFold(acc, adapter, sensors);
      forall n | n in m && !(n in acc && m[n] == acc[n])
        ensures SensorProduces(adapter, sensors, n, m[n])
      {
        if n in mid && m[n] == mid[n] {
          var j :| 0 <= j < |init| && init[j].1.Dict? && KeyProduces(adapter, init[j].0, init[j].1.entries, TempKeys, n, m[n]);
          assert sensors[j] == init[j];
        } else {
          assert sensors[|sensors| - 1] == s;
        }
      }
    }
  }

  /** One sensor's step keeps what was recorded and records its own temperature inputs. */
  lemma SensorStepComplete(acc: map<string, real>, adapter: string, s: (string, Value))
    ensures acc.Keys <= SensorStep(acc, adapter, s).Keys
    ensures forall n, r :: s.1.Dict? && KeyProduces(adapter, s.0, s.1.entries, TempKeys, n, r) ==> n in SensorStep(acc, adapter, s)
  {
    SensorStepSound(acc, adapter, s);
  }

  /** A reading of sensor `j` is recorded by the fold over the adapter's sensors. */
  lemma {:induction false} SensorsFoldHasAt(acc: map<string, real>, adapter: string, sensors: seq<(string, Value)>,
                                            j: nat, n: string, r: real)
    requires j < |sensors| && sensors[j].1.Dict?
    requires KeyProduces(adapter, sensors[j].0, sensors[j].1.entries, TempKeys, n, r)
    ensures n in SensorsFold(acc, adapter, sensors)
  {
    var init := sensors[..|sensors| - 1];
    var last := sensors[|sensors| - 1];
    SensorStepComplete(SensorsFold(acc, adapter, init), adapter, last);
    if j < |init| {
      assert init[j] == sensors[j];
      SensorsFoldHasAt(acc, adapter, init, j, n, r);
    }
  }

  lemma SensorsFoldComplete(acc: map<string, real>, adapter: string, sensors: seq<(string, Value)>)
    ensures forall n, r :: SensorProduces(adapter, sensors, n, r) ==> n in SensorsFold(acc, adapter, sensors)
  {
    forall n, r | SensorProduces(adapter, sensors, n, r) ensures n in SensorsFold(acc, adapter, sensors) {
      var j :| 0 <= j < |sensors| && sensors[j].1.Dict? && KeyProduces(adapter, sensors[j].0, sensors[j].1.entries, TempKeys, n, r);
      SensorsFoldHasAt(acc, adapter, sensors, j, n, r);
    }
  }

  /** One adapter's step: it only adds readings of its own sensors, and only when it is read. */
  lemma AdapterStepSound(whitelist: seq<string>, acc: map<string, real>, a: (string, Value))
    ensures var m := AdapterStep(whitelist, acc, a);
      && (Positive(acc) ==> Positive(m))
      && (forall n :: n in m ==>
            (n in acc && m[n] == acc[n]) || (Passes(whitelist, a.0) && a.1.Dict? && SensorProduces(a.0, a.1.entries, n, m[n])))
      && (forall n :: n in acc ==> n in m)
      && (forall n, r :: Passes(whitelist, a.0) && a.1.Dict? && SensorProduces(a.0, a.1.entries, n, r) ==> n in m)
  {
    if Passes(whitelist, a.0) && a.1.Dict? {
      SensorsFoldSound(acc, a.0, a.1.entries);
      SensorsFoldComplete(acc, a.0, a.1.entries);
    }
  }

  /** One adapter's step keeps what was recorded and, when the adapter is read, records its
      sensors' temperature inputs. */
  lemma AdapterStepComplete(whitelist: seq<string>, acc: map<string, real>, a: (string, Value))
    ensures forall n :: n in acc ==> n in AdapterStep(whitelist, acc, a)
    ensures forall n, r :: Passes(whitelist, a.0) && a.1.Dict? && SensorProduces(a.0, a.1.entries, n, r) ==>
              n in AdapterStep(whitelist, acc, a)
  {
    AdapterStepSound(whitelist, acc, a);
  }

  lemma {:induction false} AdaptersFoldSound(whitelist: seq<string>, adapters: seq<(string, Value)>)
    ensures var m := AdaptersFold(whitelist, adapters);
      && Positive(m)
      && (forall n :: n in m ==> AdapterProduces(whitelist, adapters, n, m[n]))
  {
    if |adapters| > 0 {
      var init := adapters[..|adapters| - 1];
      var a := adapters[|adapters| - 1];
      AdaptersFoldSound(whitelist, init);
      var mid := AdaptersFold(whitelist, init);
      AdapterStepSound(whitelist, mid, a);
      var m := AdaptersFold(whitelist, adapters);
      forall n | n in m ensures AdapterProduces(whitelist, adapters, n, m[n]) {
        if n in mid && m[n] == mid[n] {
          var i :| 0 <= i < |init| && Passes(whitelist, init[i].0) && init[i].1.Dict?
                   && SensorProduces(init[i].0, init[i].1.entries, n, m[n]);
          assert adapters[i] == init[i];
        } else {
          assert adapters[|adapters| - 1] == a;
        }
      }
    }
  }

  /** A reading of a sensor of the whitelisted adapter `i` is recorded by the fold. */
  lemma {:induction false} AdaptersFoldHasAt(whitelist: seq<string>, adapters: seq<(string, Value)>,
                                             i: nat, n: string, r: real)
    requires i < |adapters| && Passes(whitelist, adapters[i].0) && adapters[i].1.Dict?
    requires SensorProduces(adapters[i].0, adapters[i].1.entries, n, r)
    ensures n in AdaptersFold(whitelist, adapters)
  {
    var init := adapters[..|adapters| - 1];
    var last := adapters[|adapters| - 1];
    AdapterStepComplete(whitelist, AdaptersFold(whitelist, init), last);
    if i < |init| {
      assert init[i] == adapters[i];
      AdaptersFoldHasAt(whitelist, init, i, n, r);
    }
  }

  lemma AdaptersFoldComplete(whitelist: seq<string>, adapters: seq<(string, Value)>)
    ensures forall n, r :: AdapterProduces(whitelist, adapters, n, r) ==> n in AdaptersFold(whitelist, adapters)
  {
    forall n, r | AdapterProduces(whitelist, adapters, n, r) ensures n in AdaptersFold(whitelist, adapters) {
      var i :| 0 <= i < |adapters| && Passes(whitelist, adapters[i].0) && adapters[i].1.Dict?
               && SensorProduces(adapters[i].0, adapters[i].1.entries, n, r);
      AdaptersFoldHasAt(whitelist, adapters, i, n, r);
    }
  }

  /** The flattened readings are exactly the positive numeric `temp1_input`..`temp3_input`
      values of dictionary sensors of whitelisted dictionary adapters, each under its
      `adapter:sensor:key` name (a later sensor with the same full name wins); an empty or
      non-dictionary input gives none. */
  lemma ExtractCharacterized(whitelist: seq<string>, data: Value)
    ensures !Truthy(data) || !data.Dict? ==> Extract(whitelist, data) == map[]
    ensures Positive(Extract(whitelist, data))
    ensures data.Dict? ==> forall n :: n in Extract(whitelist, data) ==>
              AdapterProduces(whitelist, data.entries, n, Extract(whitelist, data)[n])
    ensures data.Dict? ==> forall n, r :: AdapterProduces(whitelist, data.entries, n, r) ==> n in Extract(whitelist, data)
  {
    if data.Dict? {
      AdaptersFoldSound(whitelist, data.entries);
      AdaptersFoldComplete(whitelist, data.entries);
    }
  }

  // ---------------------------------------------------------------------------------------
  // Validation and role selection

  /** What `validate_temperatures` accepts: at least one reading, and all within 0..150 °C. */
  ghost predicate Reasonable(temperatures: map<string, real>) {
    |temperatures| > 0 && forall n :: n in temperatures ==> 0.0 <= temperatures[n] <= 150.0
  }

  /** `validate_temperatures`. The check of the critical-sensor adapters only logs and does
      not affect the result. */
  method ValidateTemperatures(temperatures: map<string, real>) returns (ok: bool)
    ensures ok <==> Reasonable(temperatures)
  {
    if |temperatures| == 0 {
      return false;
    }
    var rest := temperatures.Keys;
    while rest != {}
      invariant rest <= temperatures.Keys
      invariant forall n :: n in temperatures && n !in rest ==> 0.0 <= temperatures[n] <= 150.0
      decreases |rest|
    {
      var sensor :| sensor in rest;
      if temperatures[sensor] < 0.0 || temperatures[sensor] > 150.0 {
        return false;
      }
      rest := rest - {sensor};
    }
    return true;
  }

  /** The adapter part of a full sensor name (`name.split(':', 1)[0]`). */
  function AdapterOf(name: string): string {
    Before(name, ':')
  }

  /** The adapter tokens configured for a role; none when the role is not configured. */
  function RoleAdapters(criticalSensorsByRole: map<string, seq<string>>, role: string): seq<string> {
    if role in criticalSensorsByRole then criticalSensorsByRole[role] else []
  }

  /** The readings whose adapter contains one of the tokens. */
  function Matching(temperatures: map<string, real>, adapters: seq<string>): map<string, real> {
    map n | n in temperatures && AnyToken(AdapterOf(n), adapters) :: temperatures[n]
  }

  /** `sensors_for_role`. */
  function ForRole(temperatures: map<string, real>, criticalSensorsByRole: map<string, seq<string>>, role: string): map<string, real> {
    var adapters := RoleAdapters(criticalSensorsByRole, role);
    if |adapters| == 0 then temperatures
    else
      var out := Matching(temperatures, adapters);
      if |out| == 0 then temperatures else out
  }

  method SensorsForRole(temperatures: map<string, real>, criticalSensorsByRole: map<string, seq<string>>, role: string)
    returns (out: map<string, real>)
    ensures out == ForRole(temperatures, criticalSensorsByRole, role)
  {
    var adapters := RoleAdapters(criticalSensorsByRole, role);
    if |adapters| == 0 {
      return temperatures;
    }
    out := map[];
    var rest := temperatures.Keys;
    while rest != {}
      invariant rest <= temperatures.Keys
      invariant out == map n | n in temperatures && n !in rest && AnyToken(AdapterOf(n), adapters) :: temperatures[n]
      decreases |rest|
    {
      var name :| name in rest;
      if AnyToken(AdapterOf(name), adapters) {
        out := out[name := temperatures[name]];
      }
      rest := rest - {name};
    }
    assert out == Matching(temperatures, adapters);
    if |out| == 0 {
      out := temperatures;
    }
  }

  /** A role's readings are a sub-map of all readings; there is at least one whenever there
      is any reading; an unconfigured role gets them all; otherwise it gets exactly those
      whose adapter contains a configured token, or all of them when none does. */
  lemma ForRoleCharacterized(temperatures: map<string, real>, criticalSensorsByRole: map<string, seq<string>>, role: string)
    ensures var out := ForRole(temperatures, criticalSensorsByRole, role);
      var adapters := RoleAdapters(criticalSensorsByRole, role);
      && (forall n :: n in out ==> n in temperatures && out[n] == temperatures[n])
      && (|temperatures| > 0 ==> |out| > 0)
      && (|adapters| == 0 ==> out == temperatures)
      && ((exists n :: n in temperatures && AnyToken(AdapterOf(n), adapters)) ==>
            forall n :: n in out <==> n in temperatures && AnyToken(AdapterOf(n), adapters))
      && ((forall n :: n in temperatures ==> !AnyToken(AdapterOf(n), adapters)) ==> out == temperatures)
  {
    var adapters := RoleAdapters(criticalSensorsByRole, role);
    var m := Matching(temperatures, adapters);
    if exists n :: n in temperatures && AnyToken(AdapterOf(n), adapters) {
      var n :| n in temperatures && AnyToken(AdapterOf(n), adapters);
      assert n in m;
    }
    if forall n :: n in temperatures ==> !AnyToken(AdapterOf(n), adapters) {
      assert m == map[];
    }
  }
}
