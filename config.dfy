/**
 * The daemon's configuration: the TOML table and its validator (`ConfigManager`), and the
 * typed view of a validated table that the other components read.
 */
module Config {
  import opened Wrappers
  import opened Values
  import Sysfs

  /** One entry of the `fans` list. Path, attribute and hint fields hold "" where the entry has
      no such key or an empty value: the daemon only ever tests them for truthiness. */
  datatype Fan = Fan(
    name: string,
    role: string,
    pwmPath: string,
    enablePath: string,
    rpmPath: string,
    pwmAttr: string,
    enableAttr: string,
    rpmAttr: string,
    hwmonPathHint: string,
    hwmonName: string,
    devicePath: string)

  /** A validated configuration table with its values already of the types that the daemon's
      `int(...)`, `float(...)` and `bool(...)` conversions produce. Options stand for keys
      that may be absent and have a default at their point of use. */
  datatype DaemonConfig = DaemonConfig(
    emergencyTemp: real,
    criticalTemp: real,
    maxFanSpeed: int,
    hysteresis: real,
    rampStart: real,
    rampRange: real,
    curveMinSpeed: int,
    rpmIgnoreFloor: int,
    minChangeInterval: real,
    averagingSamples: int,
    minSpeedChange: Option<int>,
    cpuAuto: bool,
    roles: seq<string>,
    adaptiveEnabled: Option<bool>,
    adaptiveDropStep: Option<int>,
    adaptiveRaiseStep: Option<int>,
    adaptiveStableCycles: Option<int>,
    adaptiveTempWindow: Option<real>,
    adaptiveTempAggressive: Option<real>,
    sensorWhitelist: seq<string>,
    criticalSensorsByRole: map<string, seq<string>>,
    fans: seq<Fan>)

  /** The top-level keys `validate` requires, in the order it checks them. */
  const RequiredTop: seq<string> := [
    "check_interval", "max_fan_speed", "hysteresis", "averaging_samples",
    "min_change_interval", "emergency_temp", "critical_temp",
    "sensor_whitelist", "ramp_start", "ramp_range", "curve_min_speed",
    "rpm_ignore_floor"]

  /** The keys every fan entry must have, in the order they are checked. */
  const FanKeys: seq<string> := ["name", "role", "pwm_path"]

  /** The exceptions `validate` and `save` raise. */
  datatype ConfigError =
    | MissingKey(key: string)       // KeyError: a required top-level key
    | FansNotList                   // ValueError: `fans` absent, not a list, or empty
    | FanMissingKey(fanKey: string) // KeyError: a fan entry lacks name, role or pwm_path
    | FanTypeError                  // TypeError: a fan entry or one of its paths has the wrong type
    | PwmPathNotFound(path: string) // FileNotFoundError
    | SaveUnsupported               // NotImplementedError from `save`

  /** Outcome of a check: success with the paths it warned about, or the error raised. */
  datatype Check = Ok(warnings: seq<string>) | Err(error: ConfigError)

  /** The first of `keys` that is not a key of `cfg`. */
  function FirstMissing(cfg: map<string, Value>, keys: seq<string>): (r: Option<string>)
    ensures r.None? <==> forall i :: 0 <= i < |keys| ==> keys[i] in cfg
    ensures r.Some? ==> r.value !in cfg && exists j :: FirstAbsentAt(cfg, keys, j, r.value)
  {
    if |keys| == 0 then None
    else if keys[0] !in cfg then
      assert FirstAbsentAt(cfg, keys, 0, keys[0]);
      Some(keys[0])
    else
      var r := FirstMissing(cfg, keys[1..]);
      assert r.Some? ==> exists j :: FirstAbsentAt(cfg, keys, j, r.value) by {
        if r.Some? {
          var j :| FirstAbsentAt(cfg, keys[1..], j, r.value);
          assert forall i :: 0 <= i < j + 1 ==> keys[i] in cfg by {
            forall i | 0 <= i < j + 1 ensures keys[i] in cfg {
              if i > 0 { assert keys[i] == keys[1..][i - 1]; }
            }
          }
          assert FirstAbsentAt(cfg, keys, j + 1, r.value);
        }
      }
      assert r.None? ==> forall i :: 0 <= i < |keys| ==> keys[i] in cfg by {
        if r.None? {
          forall i | 0 <= i < |keys| ensures keys[i] in cfg {
            if i > 0 { assert keys[i] == keys[1..][i - 1]; }
          }
        }
      }
      r
  }

  /** `pathlib.Path(s).exists()`: `Path("")` is the current directory, which exists. */
  predicate PathExists(fs: Sysfs.Sysfs, s: string)
    reads fs
  {
    s == "" || fs.Exists(s)
  }

  /** The `for k in [...]: if k not in f` loop of one fan entry. */
  function FanKeysError(f: Value, keys: seq<string>): Option<ConfigError> {
    if |keys| == 0 then None
    else match PyIn(keys[0], f)
      case None => Some(FanTypeError)
      case Some(false) => Some(FanMissingKey(keys[0]))
      case Some(true) => FanKeysError(f, keys[1..])
  }

  /** An optional path of a fan entry: a falsy value is ignored, a missing file only warns. */
  function OptionalPath(entries: seq<(string, Value)>, key: string, fs: Sysfs.Sysfs): Check
    reads fs
  {
    match Get(entries, key)
    case None => Ok([])
    case Some(v) =>
      if !Truthy(v) then Ok([])
      else if !v.Str? then Err(FanTypeError)
      else if PathExists(fs, v.s) then Ok([])
      else Ok([v.s])
  }

  /** All checks `validate` makes of one fan entry. */
  function CheckFan(f: Value, fs: Sysfs.Sysfs): Check
    reads fs
  {
    match FanKeysError(f, FanKeys)
    case Some(e) => Err(e)
    case None =>
      if !f.Dict? then Err(FanTypeError)
      else match Get(f.entries, "pwm_path")
        case None => Err(FanMissingKey("pwm_path"))
        case Some(pwm) =>
          if !pwm.Str? then Err(FanTypeError)
          else if !PathExists(fs, pwm.s) then Err(PwmPathNotFound(pwm.s))
          else match OptionalPath(f.entries, "enable_path", fs)
            case Err(e) => Err(e)
            case Ok(w1) =>
              match OptionalPath(f.entries, "rpm_path", fs)
              case Err(e) => Err(e)
              case Ok(w2) => Ok(w1 + w2)
  }

  /** The fan loop: the first failing entry decides, warnings accumulate in order. */
  function CheckFans(fans: seq<Value>, fs: Sysfs.Sysfs): Check
    reads fs
  {
    if |fans| == 0 then Ok([])
    else match CheckFans(fans[..|fans| - 1], fs)
      case Err(e) => Err(e)
      case Ok(w) =>
        match CheckFan(fans[|fans| - 1], fs)
        case Err(e) => Err(e)
        case Ok(w2) => Ok(w + w2)
  }

  /** What `validate` decides for a table: required keys first, then the fans list, then each fan. */
  function ValidateSpec(cfg: map<string, Value>, fs: Sysfs.Sysfs): Check
    reads fs
  {
    match FirstMissing(cfg, RequiredTop)
    case Some(k) => Err(MissingKey(k))
    case None =>
      var fans := if "fans" in cfg then cfg["fans"] else Null;
      if !fans.List? || |fans.items| == 0 then Err(FansNotList)
      else CheckFans(fans.items, fs)
  }

  /** The table after a successful `validate`: a `critical_sensors_by_role` that is present but
      not a table becomes `{}`. */
  function Normalized(cfg: map<string, Value>): map<string, Value> {
    if "critical_sensors_by_role" in cfg && !cfg["critical_sensors_by_role"].Dict?
    then cfg["critical_sensors_by_role" := Dict([])]
    else cfg
  }

  /** A fan entry that passes: a table with name, role and an existing pwm_path string, whose
      enable_path and rpm_path are falsy or strings. */
  ghost predicate GoodFan(f: Value, fs: Sysfs.Sysfs)
    reads fs
  {
    && f.Dict?
    && HasKey(f.entries, "name") && HasKey(f.entries, "role")
    && Get(f.entries, "pwm_path").Some? && Get(f.entries, "pwm_path").value.Str?
    && PathExists(fs, Get(f.entries, "pwm_path").value.s)
    && (Get(f.entries, "enable_path").Some? && Truthy(Get(f.entries, "enable_path").value)
        ==> Get(f.entries, "enable_path").value.Str?)
    && (Get(f.entries, "rpm_path").Some? && Truthy(Get(f.entries, "rpm_path").value)
        ==> Get(f.entries, "rpm_path").value.Str?)
  }

  lemma CheckFanGood(f: Value, fs: Sysfs.Sysfs)
    ensures CheckFan(f, fs).Ok? <==> GoodFan(f, fs)
  {
    if f.Dict? {
      assert FanKeys[1..] == ["role", "pwm_path"] && FanKeys[1..][1..] == ["pwm_path"];
      FanKeysErrorDict(f, FanKeys);
      assert |FanKeys| == 3 && FanKeys[0] == "name" && FanKeys[1] == "role" && FanKeys[2] == "pwm_path";
      assert (forall i :: 0 <= i < |FanKeys| ==> HasKey(f.entries, FanKeys[i])) <==>
        HasKey(f.entries, "name") && HasKey(f.entries, "role") && HasKey(f.entries, "pwm_path");
    }
  }

  lemma {:induction false} FanKeysErrorDict(f: Value, keys: seq<string>)
    requires f.Dict?
    ensures FanKeysError(f, keys).None? <==> forall i :: 0 <= i < |keys| ==> HasKey(f.entries, keys[i])
  {
    if |keys| > 0 {
      FanKeysErrorDict(f, keys[1..]);
      assert forall i :: 1 <= i < |keys| ==> keys[i] == keys[1..][i - 1];
    }
  }

  lemma {:induction false} CheckFansGood(fans: seq<Value>, fs: Sysfs.Sysfs)
    ensures CheckFans(fans, fs).Ok? <==> forall i :: 0 <= i < |fans| ==> GoodFan(fans[i], fs)
  {
    if |fans| > 0 {
      var init := fans[..|fans| - 1];
      CheckFansGood(init, fs);
      CheckFanGood(fans[|fans| - 1], fs);
      assert forall i :: 0 <= i < |init| ==> init[i] == fans[i];
    }
  }

  /** `validate` passes exactly when every required key is present, `fans` is a non-empty list
      and every fan entry is good; whether an enable_path or rpm_path exists never matters. */
  lemma ValidateOkIff(cfg: map<string, Value>, fs: Sysfs.Sysfs)
    ensures ValidateSpec(cfg, fs).Ok? <==>
      && (forall i :: 0 <= i < |RequiredTop| ==> RequiredTop[i] in cfg)
      && "fans" in cfg && cfg["fans"].List? && |cfg["fans"].items| > 0
      && forall i :: 0 <= i < |cfg["fans"].items| ==> GoodFan(cfg["fans"].items[i], fs)
  {
    if FirstMissing(cfg, RequiredTop).None? && "fans" in cfg && cfg["fans"].List? {
      CheckFansGood(cfg["fans"].items, fs);
    }
  }

  /** `keys[j]` is `k`, and every key before position `j` is present in `cfg`. */
  ghost predicate FirstAbsentAt(cfg: map<string, Value>, keys: seq<string>, j: int, k: string) {
    0 <= j < |keys| && keys[j] == k && forall i :: 0 <= i < j ==> keys[i] in cfg
  }

  /** A missing required key is reported before anything about the fans: the reported key is
      absent and every key listed before it is present. */
  lemma ValidateMissingKeyFirst(cfg: map<string, Value>, fs: Sysfs.Sysfs)
    requires exists i :: 0 <= i < |RequiredTop| && RequiredTop[i] !in cfg
    ensures ValidateSpec(cfg, fs).Err? && ValidateSpec(cfg, fs).error.MissingKey?
    ensures var k := ValidateSpec(cfg, fs).error.key;
      k !in cfg && exists j :: FirstAbsentAt(cfg, RequiredTop, j, k)
  {
  }

  /** `Normalized` touches only `critical_sensors_by_role`, and leaves it a table. */
  lemma NormalizedShape(cfg: map<string, Value>)
    ensures Normalized(cfg).Keys == cfg.Keys
    ensures forall k :: k in cfg && k != "critical_sensors_by_role" ==> Normalized(cfg)[k] == cfg[k]
    ensures "critical_sensors_by_role" in cfg ==>
      Normalized(cfg)["critical_sensors_by_role"] ==
        (if cfg["critical_sensors_by_role"].Dict? then cfg["critical_sensors_by_role"] else Dict([]))
  {
  }

  class ConfigManager {
    /** The loaded table (the result of `load`, which reads and parses the TOML file). */
    var config: map<string, Value>

    constructor (loaded: map<string, Value>)
      ensures config == loaded
    {
      config := loaded;
    }

    /** `save` is deliberately disabled and always raises. */
    method Save() returns (r: Check)
      ensures r == Err(SaveUnsupported)
    {
      r := Err(SaveUnsupported);
    }

    /** `validate`: the checks in order, failing at the first problem; on success the invalid
        `critical_sensors_by_role` is replaced in place. */
    method Validate(fs: Sysfs.Sysfs) returns (r: Check)
      modifies this
      ensures r == ValidateSpec(old(config), fs)
      ensures config == if r.Ok? then Normalized(old(config)) else old(config)
    {
      var cfg := config;
      var k := 0;
      while k < |RequiredTop|
        invariant 0 <= k <= |RequiredTop|
        invariant forall i :: 0 <= i < k ==> RequiredTop[i] in cfg
      {
        if RequiredTop[k] !in cfg {
          FirstMissingAt(cfg, RequiredTop, k);
          return Err(MissingKey(RequiredTop[k]));
        }
        k := k + 1;
      }
      var fans := if "fans" in cfg then cfg["fans"] else Null;
      if !fans.List? || |fans.items| == 0 {
        return Err(FansNotList);
      }
      var warnings: seq<string> := [];
      var n := 0;
      while n < |fans.items|
        invariant 0 <= n <= |fans.items|
        invariant CheckFans(fans.items[..n], fs) == Ok(warnings)
      {
        assert fans.items[..n + 1][..n] == fans.items[..n];
        var c := CheckFan(fans.items[n], fs);
        if c.Err? {
          CheckFansPrefixErr(fans.items, n + 1, fs);
          return c;
        }
        warnings := warnings + c.warnings;
        n := n + 1;
      }
      assert fans.items[..n] == fans.items;
      r := Ok(warnings);
      if "critical_sensors_by_role" in cfg && !cfg["critical_sensors_by_role"].Dict? {
        config := cfg["critical_sensors_by_role" := Dict([])];
      }
    }
  }

  lemma {:induction false} FirstMissingAt(cfg: map<string, Value>, keys: seq<string>, k: nat)
    requires k < |keys| && keys[k] !in cfg
    requires forall i :: 0 <= i < k ==> keys[i] in cfg
    ensures FirstMissing(cfg, keys) == Some(keys[k])
    decreases k
  {
    if k > 0 {
      FirstMissingAt(cfg, keys[1..], k - 1);
    }
  }

  /** Once a prefix of the fans fails, every longer prefix fails with the same error. */
  lemma {:induction false} CheckFansPrefixErr(fans: seq<Value>, n: nat, fs: Sysfs.Sysfs)
    requires 0 < n <= |fans| && CheckFans(fans[..n], fs).Err?
    ensures CheckFans(fans, fs) == CheckFans(fans[..n], fs)
    decreases |fans| - n
  {
    if n < |fans| {
      assert fans[..n + 1][..n] == fans[..n];
      CheckFansPrefixErr(fans, n + 1, fs);
    } else {
      assert fans[..n] == fans;
    }
  }
}
