/**
 * The control loop's single cycle (k8_fan_controller/controller.py): read the sensors,
 * validate, smooth, pick per-role target temperatures, enforce the critical-temperature
 * rule, compute per-role speeds, post-process them and write them when the change is big
 * enough and the last change is old enough. A failed read or invalid data counts a
 * failure; the third failure in a row hands the fans back to their saved modes and stops
 * the daemon.
 *
 * `run_cycle` as written calls `calculate_fan_speed` without its `role` argument, so in
 * the source every cycle that gets that far raises and ends in the failure handler.
 * `RunCycleAsWritten` models that; `RunCycle` models the evidently intended call.
 */
module Controller {
  import opened Wrappers
  import opened Values
  import opened Config
  import Sysfs
  import opened FanIO
  import opened Policy
  import opened Sensors
  import opened Temperature
  import opened Safety

  /** `max_failures`. */
  const MaxFailures: nat := 3

  // ---------------------------------------------------------------------------------------
  // The failure counter

  /** How far a cycle got before it returned. */
  datatype Reached =
    | NoSensorData
    | InvalidTemperatures
    | CriticalTemperature
    | NoCurrentSpeeds
    | SpeedPolicy

  predicate SensorFailure(r: Reached) {
    r == NoSensorData || r == InvalidTemperatures
  }

  /** The failure handler: one more failure, and the verdict whether to go on. */
  function Failed(failures: nat): (r: (nat, bool))
    ensures r.0 == failures + 1
    ensures r.1 <==> r.0 < MaxFailures
  {
    var n := failures + 1;
    (n, n < MaxFailures)
  }

  /** The counter after a cycle and whether the daemon goes on, with the speed policy
      called as intended. */
  function Cycle(failures: nat, reached: Reached): (nat, bool) {
    match reached
    case NoSensorData => Failed(failures)
    case InvalidTemperatures => Failed(failures)
    case CriticalTemperature => (0, false)
    case NoCurrentSpeeds => (0, true)
    case SpeedPolicy => (0, true)
  }

  /** The same as `run_cycle` is written: the counter is reset, then the call into the
      speed policy raises and the handler counts a failure. */
  function CycleAsWritten(failures: nat, reached: Reached): (nat, bool) {
    match reached
    case NoSensorData => Failed(failures)
    case InvalidTemperatures => Failed(failures)
    case CriticalTemperature => (0, false)
    case NoCurrentSpeeds => (0, true)
    case SpeedPolicy => Failed(0)
  }

  /** The counter after a run of cycles, starting from the initial 0. */
  function CounterAfter(trace: seq<Reached>, asWritten: bool): nat {
    if |trace| == 0 then 0
    else
      var before := CounterAfter(trace[..|trace| - 1], asWritten);
      var last := trace[|trace| - 1];
      (if asWritten then CycleAsWritten(before, last) else Cycle(before, last)).0
  }

  /** The number of sensor failures at the end of a run of cycles. */
  function TrailingFailures(trace: seq<Reached>): nat {
    if |trace| == 0 || !SensorFailure(trace[|trace| - 1]) then 0
    else TrailingFailures(trace[..|trace| - 1]) + 1
  }

  /** The cycle before the trailing sensor failures got to the speed policy. */
  predicate PolicyBeforeFailures(trace: seq<Reached>) {
    if |trace| == 0 then false
    else if SensorFailure(trace[|trace| - 1]) then PolicyBeforeFailures(trace[..|trace| - 1])
    else trace[|trace| - 1] == SpeedPolicy
  }

  /** As intended, the counter is the number of sensor failures in a row at the end. */
  lemma {:induction false} CounterIsTrailingFailures(trace: seq<Reached>)
    ensures CounterAfter(trace, false) == TrailingFailures(trace)
  {
    if |trace| > 0 {
      CounterIsTrailingFailures(trace[..|trace| - 1]);
    }
  }

  /** As written, a cycle that reaches the speed policy leaves one failure behind. */
  lemma {:induction false} CounterAsWritten(trace: seq<Reached>)
    ensures CounterAfter(trace, true) == TrailingFailures(trace) + (if PolicyBeforeFailures(trace) then 1 else 0)
  {
    if |trace| > 0 {
      CounterAsWritten(trace[..|trace| - 1]);
    }
  }

  /** As intended, a cycle stops the daemon exactly when it finds a critical temperature or
      completes three sensor failures in a row. */
  lemma CycleStopsIff(trace: seq<Reached>)
    requires |trace| > 0
    ensures !Cycle(CounterAfter(trace[..|trace| - 1], false), trace[|trace| - 1]).1 <==>
      trace[|trace| - 1] == CriticalTemperature || TrailingFailures(trace) >= MaxFailures
  {
    CounterIsTrailingFailures(trace[..|trace| - 1]);
  }

  /** As written, a cycle also stops the daemon after only two sensor failures in a row,
      when the cycle before them reached the speed policy. */
  lemma CycleAsWrittenStopsIff(trace: seq<Reached>)
    requires |trace| > 0
    ensures !CycleAsWritten(CounterAfter(trace[..|trace| - 1], true), trace[|trace| - 1]).1 <==>
      trace[|trace| - 1] == CriticalTemperature
      || (SensorFailure(trace[|trace| - 1])
          && TrailingFailures(trace) + (if PolicyBeforeFailures(trace) then 1 else 0) >= MaxFailures)
  {
    CounterAsWritten(trace[..|trace| - 1]);
  }

  /** A run where the source stops the daemon but the intended code does not: a cycle that
      reaches the speed policy, then two failed sensor reads. */
  lemma AsWrittenStopsAfterTwoFailures()
    ensures var t := [SpeedPolicy, NoSensorData, NoSensorData];
      && !CycleAsWritten(CounterAfter(t[..2], true), t[2]).1
      && Cycle(CounterAfter(t[..2], false), t[2]).1
  {
    var t := [SpeedPolicy, NoSensorData, NoSensorData];
    assert t[..2][..1] == [SpeedPolicy];
    assert [SpeedPolicy][..0] == [];
  }

  // ---------------------------------------------------------------------------------------
  // Roles

  /** The distinct non-empty fan roles, in order of first appearance. */
  function DistinctRoles(fans: seq<Fan>): seq<string> {
    if |fans| == 0 then []
    else
      var prev := DistinctRoles(fans[..|fans| - 1]);
      var r := fans[|fans| - 1].role;
      if r != "" && r !in prev then prev + [r] else prev
  }

  ghost predicate NoDup(s: seq<string>) {
    forall i, j :: 0 <= i < j < |s| ==> s[i] != s[j]
  }

  ghost predicate HasRole(fans: seq<Fan>, r: string) {
    exists k :: 0 <= k < |fans| && fans[k].role == r
  }

  /** No role twice, and exactly the non-empty roles some fan has. */
  lemma {:induction false} DistinctRolesSound(fans: seq<Fan>)
    ensures NoDup(DistinctRoles(fans))
    ensures forall r :: r in DistinctRoles(fans) <==> r != "" && HasRole(fans, r)
  {
    if |fans| > 0 {
      var init := fans[..|fans| - 1];
      DistinctRolesSound(init);
      forall r ensures HasRole(fans, r) <==> HasRole(init, r) || fans[|fans| - 1].role == r {
        if HasRole(fans, r) {
          var k :| 0 <= k < |fans| && fans[k].role == r;
          if k < |init| { assert init[k] == fans[k]; }
        }
        if HasRole(init, r) {
          var k :| 0 <= k < |init| && init[k].role == r;
          assert fans[k] == init[k];
        }
      }
    }
  }

  /** Roles come in the order of their first fan. */
  lemma {:induction false} DistinctRolesOrder(fans: seq<Fan>, i: int, j: int)
    requires 0 <= i < j < |DistinctRoles(fans)|
    ensures exists a :: 0 <= a < |fans| && fans[a].role == DistinctRoles(fans)[i]
              && forall b :: 0 <= b < |fans| && fans[b].role == DistinctRoles(fans)[j] ==> a < b
  {
    var init := fans[..|fans| - 1];
    var c := DistinctRoles(init);
    var d := DistinctRoles(fans);
    var last := fans[|fans| - 1].role;
    DistinctRolesSound(init);
    if j < |c| {
      assert d[i] == c[i] && d[j] == c[j];
      DistinctRolesOrder(init, i, j);
      var a :| 0 <= a < |init| && init[a].role == c[i]
               && forall b :: 0 <= b < |init| && init[b].role == c[j] ==> a < b;
      assert fans[a] == init[a];
      forall b | 0 <= b < |fans| && fans[b].role == d[j] ensures a < b {
        if b < |init| { assert init[b] == fans[b]; }
      }
    } else {
      assert d == c + [last] && d[j] == last && last !in c;
      assert d[i] == c[i] && c[i] in c;
      var a :| 0 <= a < |init| && init[a].role == c[i];
      assert fans[a] == init[a];
      forall b | 0 <= b < |fans| && fans[b].role == d[j] ensures a < b {
        if b < |init| {
          assert false;
        }
      }
    }
  }

  /** `_roles_to_control`: the configured roles when there are any, else the fans' roles. */
  function RolesSpec(cfg: DaemonConfig): seq<string> {
    if |cfg.roles| > 0 then cfg.roles else DistinctRoles(cfg.fans)
  }

  // ---------------------------------------------------------------------------------------
  // The speed policy over all roles, and the write decision

  function Get0(m: map<string, int>, k: string): int {
    if k in m then m[k] else 0
  }

  function AbsInt(x: int): int { if x < 0 then -x else x }

  /** `targets` holds `calculate_fan_speed`'s result for every role of `roles` but the
      `pending` ones, and the policy memory went from `before` to `after` by exactly those
      calls: each role's step sees only its own state. */
  ghost predicate PolicyRanExcept(cfg: DaemonConfig, st: AdaptiveSettings, before: map<string, RoleState>,
                                  after: map<string, RoleState>, roles: set<string>, pending: set<string>,
                                  temps: map<string, real>, current: map<string, int>, targets: map<string, int>) {
    forall r ::
      && (r in targets <==> r in roles && r !in pending)
      && (r in targets && r in temps ==>
            targets[r] == SpeedStep(cfg, st, Lookup(before, r), temps[r], Some(Get0(current, r))).0)
      && Lookup(after, r) ==
           if r in roles && r !in pending && r in temps
           then SpeedStep(cfg, st, Lookup(before, r), temps[r], Some(Get0(current, r))).1
           else Lookup(before, r)
  }

  /** A role's step hands back the state it was given unless it records a new one. */
  lemma SpeedStepKeepsOrSets(cfg: DaemonConfig, st: AdaptiveSettings, state: Option<RoleState>, targetTemp: real, currentSpeed: Option<int>)
    ensures var next := SpeedStep(cfg, st, state, targetTemp, currentSpeed).1;
      next.Some? || next == state
  {
  }

  lemma PolicyStep(cfg: DaemonConfig, st: AdaptiveSettings, before: map<string, RoleState>,
                   after: map<string, RoleState>, roles: set<string>, pending: set<string>,
                   temps: map<string, real>, current: map<string, int>, targets: map<string, int>, role: string)
    requires PolicyRanExcept(cfg, st, before, after, roles, pending, temps, current, targets)
    requires role in pending && role in roles && role in temps
    ensures var (sp, next) := SpeedStep(cfg, st, Lookup(after, role), temps[role], Some(Get0(current, role)));
      PolicyRanExcept(cfg, st, before, if next.Some? then after[role := next.value] else after, roles, pending - {role},
                      temps, current, targets[role := sp])
  {
    SpeedStepKeepsOrSets(cfg, st, Lookup(after, role), temps[role], Some(Get0(current, role)));
  }

  /** `int(config.get('min_speed_change', 3))`. */
  function MinChange(cfg: DaemonConfig): int {
    cfg.minSpeedChange.GetOr(3)
  }

  /** Some role's smoothed target differs from its current speed by at least `minChange`. */
  predicate ExceedsMinChange(smooth: map<string, int>, current: map<string, int>, minChange: int) {
    exists r :: r in smooth && AbsInt(smooth[r] - Get0(current, r)) >= minChange
  }

  /** The `any(...)` of the apply decision. */
  method AnyExceedsMinChange(smooth: map<string, int>, current: map<string, int>, minChange: int) returns (b: bool)
    ensures b <==> ExceedsMinChange(smooth, current, minChange)
  {
    var rest := smooth.Keys;
    while rest != {}
      invariant rest <= smooth.Keys
      invariant forall r :: r in smooth && r !in rest ==> AbsInt(smooth[r] - Get0(current, r)) < minChange
      decreases |rest|
    {
      var r :| r in rest;
      if AbsInt(smooth[r] - Get0(current, r)) >= minChange {
        return true;
      }
      rest := rest - {r};
    }
    return false;
  }

  /** Whether a cycle that reached the write decision writes: the change is big enough and
      the last complete change is at least `min_change_interval` old. */
  predicate WritesSpeeds(cfg: DaemonConfig, smooth: map<string, int>, current: map<string, int>, now: real, lastChange: real) {
    ExceedsMinChange(smooth, current, MinChange(cfg)) && !(now - lastChange < cfg.minChangeInterval)
  }

  /** Small changes are never written, and never within the interval after the last change. */
  lemma WritesSpeedsOnlyBigAndLate(cfg: DaemonConfig, smooth: map<string, int>, current: map<string, int>, now: real, lastChange: real)
    ensures WritesSpeeds(cfg, smooth, current, now, lastChange) ==>
      now >= lastChange + cfg.minChangeInterval
      && exists r :: r in smooth && (smooth[r] >= Get0(current, r) + MinChange(cfg) || smooth[r] <= Get0(current, r) - MinChange(cfg))
    ensures (forall r :: r in smooth ==> AbsInt(smooth[r] - Get0(current, r)) < MinChange(cfg)) ==>
      !WritesSpeeds(cfg, smooth, current, now, lastChange)
  {
    if WritesSpeeds(cfg, smooth, current, now, lastChange) {
      var r :| r in smooth && AbsInt(smooth[r] - Get0(current, r)) >= MinChange(cfg);
      assert smooth[r] >= Get0(current, r) + MinChange(cfg) || smooth[r] <= Get0(current, r) - MinChange(cfg);
    }
  }

  /** The effect of the write decision on the files, the time of the last change and the
      remembered targets: the speed writes happen only when `WritesSpeeds` holds, and the
      time and the remembered targets move only when every write succeeded. */
  ghost predicate SpeedsApplied(cfg: DaemonConfig, fs: Sysfs.Sysfs, fans: seq<Fan>, cpuAuto: bool,
                                smooth: map<string, int>, current: map<string, int>, roles: set<string>, now: real,
                                files0: map<string, string>, files1: map<string, string>, last0: real, last1: real,
                                remembered0: map<string, int>, remembered1: map<string, int>) {
    var ws := SpeedWrites(fans, smooth, roles, cpuAuto);
    var ok := AllWritten(fs, files0.Keys, ws);
    if WritesSpeeds(cfg, smooth, current, now, last0) then
      && files1 == ApplyWrites(fs, files0, ws)
      && last1 == (if ok then now else last0)
      && remembered1 == (if ok then smooth else remembered0)
    else
      files1 == files0 && last1 == last0 && remembered1 == remembered0
  }

  /** The readings a data set yields. */
  function Temps(cfg: DaemonConfig, data: Value): map<string, real> {
    Extract(cfg.sensorWhitelist, data)
  }

  /** The post-processing chain of lines 147-149. */
  function PostProcess(cfg: DaemonConfig, targets: map<string, int>, current: map<string, int>, rpms: map<string, int>): (r: map<string, int>)
    ensures r.Keys == targets.Keys
    ensures forall role :: role in r ==> 0 <= r[role] <= 100
  {
    SmoothTargets(ClampFloorWhenLowering(cfg, ApplyRpmFloors(targets, current, rpms), current, rpms), current)
  }

  // ---------------------------------------------------------------------------------------
  // The controller

  class FanController {
    const config: DaemonConfig
    const fanIO: FanIO
    const history: TemperatureHistory
    const policy: SpeedPolicy
    const safety: SafetyManager
    var consecutiveFailures: nat
    var lastTargetSpeedsByRole: map<string, int>

    ghost predicate Valid()
      reads this, history, policy
    {
      && history.Valid() && policy.Valid()
      && policy.config == config && safety.criticalTemp == config.criticalTemp && fanIO.cpuAuto == config.cpuAuto
    }

    /** Builds the subsystems from the loaded configuration; resolving the fans' paths
        happens here, in `FanIO`'s constructor. */
    constructor (config: DaemonConfig, sys: Sysfs.Sysfs)
      ensures this.config == config && consecutiveFailures == 0 && lastTargetSpeedsByRole == map[]
      ensures Valid() && fresh(fanIO) && fresh(history) && fresh(policy) && fresh(safety)
      ensures history.State() == History(map[], map[], 0)
      ensures policy.roleState == map[] && fanIO.originalPwmMode == None && fanIO.lastChangeTs == 0.0
    {
      this.config := config;
      fanIO := new FanIO(config, sys);
      history := new TemperatureHistory(config.averagingSamples);
      policy := new SpeedPolicy(config);
      safety := new SafetyManager(config);
      consecutiveFailures := 0;
      lastTargetSpeedsByRole := map[];
    }

    /** `_roles_to_control`. */
    method RolesToControl() returns (roles: seq<string>)
      ensures roles == RolesSpec(config)
    {
      if |config.roles| > 0 {
        return config.roles;
      }
      var unique: seq<string> := [];
      var seen: set<string> := {};
      var fans := config.fans;
      for i := 0 to |fans|
        invariant unique == DistinctRoles(fans[..i])
        invariant seen == set r | r in unique
      {
        assert fans[..i + 1][..i] == fans[..i];
        var r := fans[i].role;
        if r != "" && r !in seen {
          seen := seen + {r};
          unique := unique + [r];
        }
      }
      assert fans[..|fans|] == fans;
      return unique;
    }

    /** The failure handler shared by the failed read, the invalid data and any exception. */
    method Failure(sys: Sysfs.Sysfs) returns (cont: bool)
      modifies this`consecutiveFailures, sys`files, fanIO`restoreCalls
      ensures (consecutiveFailures, cont) == Failed(old(consecutiveFailures))
      ensures sys.files == if cont then old(sys.files) else ApplyWrites(sys, old(sys.files), RestoreWrites(fanIO.fans, fanIO.originalPwmMode))
      ensures fanIO.restoreCalls == old(fanIO.restoreCalls) + (if cont then 0 else 1)
    {
      consecutiveFailures := consecutiveFailures + 1;
      if consecutiveFailures >= MaxFailures {
        fanIO.RestoreAutomaticMode(sys);
        return false;
      }
      return true;
    }

    /** Lines 109-127: read and validate the temperatures. `ok` says the data is usable;
        otherwise the failure handler ran and `cont` is its verdict. */
    method ReadTemperatures(sys: Sysfs.Sysfs, sensorsData: Option<Value>)
      returns (ok: bool, cont: bool, ghost reached: Reached, temps: map<string, real>)
      modifies this`consecutiveFailures, sys`files, fanIO`restoreCalls
      ensures ok <==> !SensorFailure(reached)
      ensures reached == NoSensorData || reached == InvalidTemperatures || reached == SpeedPolicy
      ensures reached == NoSensorData <==> sensorsData.None?
      ensures sensorsData.Some? ==> temps == Temps(config, sensorsData.value)
      ensures reached == InvalidTemperatures <==> sensorsData.Some? && !Reasonable(temps)
      ensures ok ==>
        && Reasonable(temps) && consecutiveFailures == old(consecutiveFailures)
        && sys.files == old(sys.files) && fanIO.restoreCalls == old(fanIO.restoreCalls)
      ensures !ok ==>
        && (consecutiveFailures, cont) == Failed(old(consecutiveFailures))
        && sys.files == (if cont then old(sys.files) else ApplyWrites(sys, old(sys.files), RestoreWrites(fanIO.fans, fanIO.originalPwmMode)))
        && fanIO.restoreCalls == old(fanIO.restoreCalls) + (if cont then 0 else 1)
    {
      temps := map[];
      if sensorsData.None? {
        cont := Failure(sys);
        return false, cont, NoSensorData, temps;
      }
      temps := ExtractTemperatures(config.sensorWhitelist, sensorsData.value);
      var valid := ValidateTemperatures(temps);
      if !valid {
        cont := Failure(sys);
        return false, cont, InvalidTemperatures, temps;
      }
      return true, true, SpeedPolicy, temps;
    }

    /** Lines 131-134: record the readings, average them and pick each role's target
        temperature from the averages. */
    method Track(temps: map<string, real>) returns (roles: set<string>, targetTemps: map<string, real>)
      requires Valid()
      modifies history
      ensures Valid()
      ensures Updated(old(history.State()), temps, history.maxSamples, history.State())
      ensures forall r :: r in roles <==> r in RolesSpec(config)
      ensures targetTemps == (map r | r in roles :: TargetTempForRole(r, history.Averaged(), config.criticalSensorsByRole))
    {
      history.Update(temps);
      var avgTemps := history.Averaged();
      var roleList := RolesToControl();
      roles := set r | r in roleList;
      targetTemps := map r | r in roles :: TargetTempForRole(r, avgTemps, config.criticalSensorsByRole);
    }

    /** Lines 130-143 once the readings are valid: reset the counter, record and average
        the readings, pick each role's target temperature, enforce the critical
        temperature on the hottest raw reading and read the current speeds. */
    method Assess(sys: Sysfs.Sysfs, temps: map<string, real>)
      returns (reached: Reached, roles: set<string>, targetTemps: map<string, real>, current: map<string, int>)
      requires Valid() && Reasonable(temps)
      modifies this`consecutiveFailures, sys`files, fanIO`restoreCalls, history
      ensures Valid() && consecutiveFailures == 0
      ensures reached == CriticalTemperature || reached == NoCurrentSpeeds || reached == SpeedPolicy
      ensures Updated(old(history.State()), temps, history.maxSamples, history.State())
      ensures forall r :: r in roles <==> r in RolesSpec(config)
      ensures targetTemps == (map r | r in roles :: TargetTempForRole(r, history.Averaged(), config.criticalSensorsByRole))
      ensures reached == CriticalTemperature <==> MapMax(temps) >= config.criticalTemp
      ensures reached == CriticalTemperature ==>
        && sys.files == ApplyWrites(sys, old(sys.files), RestoreWrites(fanIO.fans, fanIO.originalPwmMode))
        && fanIO.restoreCalls == old(fanIO.restoreCalls) + 1
      ensures reached != CriticalTemperature ==>
        && sys.files == old(sys.files) && fanIO.restoreCalls == old(fanIO.restoreCalls)
        && current == Averages(SpeedSamples(sys, sys.files, fanIO.fans, roles))
        && (reached == NoCurrentSpeeds <==> |current| == 0)
    {
      current := map[];
      consecutiveFailures := 0;
      roles, targetTemps := Track(temps);
      var maxTemp := MapMax(temps);
      var critical := safety.HandleCriticalTemperature(maxTemp, fanIO, sys);
      if critical {
        return CriticalTemperature, roles, targetTemps, current;
      }
      current := fanIO.GetCurrentSpeedByRole(sys, roles);
      reached := if |current| == 0 then NoCurrentSpeeds else SpeedPolicy;
    }

    /** Line 145 as intended: the speed policy called once per role, with the role, its
        target temperature and its current speed (0 when unread); each call updates only
        that role's adaptive memory. */
    method ComputeTargets(roles: set<string>, targetTemps: map<string, real>, current: map<string, int>)
      returns (targets: map<string, int>)
      requires Valid() && roles <= targetTemps.Keys
      modifies policy`roleState
      ensures Valid()
      ensures PolicyRanExcept(config, policy.settings, old(policy.roleState), policy.roleState, roles, {}, targetTemps, current, targets)
    {
      targets := map[];
      var pending := roles;
      while pending != {}
        invariant pending <= roles && policy.Valid()
        invariant PolicyRanExcept(config, policy.settings, old(policy.roleState), policy.roleState, roles, pending, targetTemps, current, targets)
        decreases |pending|
      {
        var r :| r in pending;
        PolicyStep(config, policy.settings, old(policy.roleState), policy.roleState, roles, pending, targetTemps, current, targets, r);
        var speed := policy.CalculateFanSpeed(r, targetTemps[r], Some(Get0(current, r)));
        targets := targets[r := speed];
        pending := pending - {r};
      }
    }

    /** Lines 163-171: write the smoothed targets when the change is big enough and the last
        complete change is old enough, and remember them when every write succeeded. */
    method ApplyIfNeeded(sys: Sysfs.Sysfs, smooth: map<string, int>, current: map<string, int>, roles: set<string>, now: real)
      modifies sys`files, fanIO`lastChangeTs, this`lastTargetSpeedsByRole
      ensures SpeedsApplied(config, sys, fanIO.fans, fanIO.cpuAuto, smooth, current, roles, now, old(sys.files), sys.files,
                            old(fanIO.lastChangeTs), fanIO.lastChangeTs, old(lastTargetSpeedsByRole), lastTargetSpeedsByRole)
    {
      var exceeds := AnyExceedsMinChange(smooth, current, MinChange(config));
      if exceeds {
        if now - fanIO.lastChangeTs < config.minChangeInterval {
          return;
        }
        var ok := fanIO.SetFanSpeedsByRole(sys, smooth, roles, now);
        if ok {
          lastTargetSpeedsByRole := smooth;
        }
      }
    }

    /** Lines 145-171 as intended: the per-role speeds, their post-processing and the
        write decision. */
    method Control(sys: Sysfs.Sysfs, roles: set<string>, targetTemps: map<string, real>, current: map<string, int>, now: real)
      returns (ghost targets: map<string, int>, ghost rpms: map<string, int>, smooth: map<string, int>)
      requires Valid() && roles <= targetTemps.Keys
      modifies policy`roleState, sys`files, fanIO`lastChangeTs, this`lastTargetSpeedsByRole
      ensures Valid()
      ensures PolicyRanExcept(config, policy.settings, old(policy.roleState), policy.roleState, roles, {}, targetTemps, current, targets)
      ensures rpms == Averages(RpmSamples(sys, old(sys.files), fanIO.fans, roles))
      ensures smooth == PostProcess(config, targets, current, rpms)
      ensures SpeedsApplied(config, sys, fanIO.fans, fanIO.cpuAuto, smooth, current, roles, now, old(sys.files), sys.files,
                            old(fanIO.lastChangeTs), fanIO.lastChangeTs, old(lastTargetSpeedsByRole), lastTargetSpeedsByRole)
    {
      var ts := ComputeTargets(roles, targetTemps, current);
      var rp := fanIO.GetCurrentRpmByRole(sys, roles);
      smooth := PostProcess(config, ts, current, rp);
      targets, rpms := ts, rp;
      ApplyIfNeeded(sys, smooth, current, roles, now);
    }

    /** Lines 130-172 as intended, once the readings are valid. */
    method Proceed(sys: Sysfs.Sysfs, temps: map<string, real>, now: real)
      returns (reached: Reached, ghost roles: set<string>, ghost targetTemps: map<string, real>, ghost current: map<string, int>,
               ghost targets: map<string, int>, ghost rpms: map<string, int>, ghost smooth: map<string, int>)
      requires Valid() && Reasonable(temps)
      modifies this`consecutiveFailures, this`lastTargetSpeedsByRole, sys`files, fanIO`restoreCalls, fanIO`lastChangeTs, history, policy`roleState
      ensures Valid() && consecutiveFailures == 0
      ensures reached == CriticalTemperature || reached == NoCurrentSpeeds || reached == SpeedPolicy
      ensures Updated(old(history.State()), temps, history.maxSamples, history.State())
      ensures forall r :: r in roles <==> r in RolesSpec(config)
      ensures targetTemps == (map r | r in roles :: TargetTempForRole(r, history.Averaged(), config.criticalSensorsByRole))
      ensures reached == CriticalTemperature <==> MapMax(temps) >= config.criticalTemp
      ensures reached == CriticalTemperature ==>
        sys.files == ApplyWrites(sys, old(sys.files), RestoreWrites(fanIO.fans, fanIO.originalPwmMode))
      ensures reached == NoCurrentSpeeds ==> sys.files == old(sys.files)
      ensures reached != SpeedPolicy ==>
        && policy.roleState == old(policy.roleState) && lastTargetSpeedsByRole == old(lastTargetSpeedsByRole)
        && fanIO.lastChangeTs == old(fanIO.lastChangeTs)
      ensures reached == SpeedPolicy ==>
        && current == Averages(SpeedSamples(sys, old(sys.files), fanIO.fans, roles)) && |current| > 0
        && PolicyRanExcept(config, policy.settings, old(policy.roleState), policy.roleState, roles, {}, targetTemps, current, targets)
        && rpms == Averages(RpmSamples(sys, old(sys.files), fanIO.fans, roles))
        && smooth == PostProcess(config, targets, current, rpms)
        && SpeedsApplied(config, sys, fanIO.fans, fanIO.cpuAuto, smooth, current, roles, now, old(sys.files), sys.files,
                         old(fanIO.lastChangeTs), fanIO.lastChangeTs, old(lastTargetSpeedsByRole), lastTargetSpeedsByRole)
    {
      targets, rpms, smooth := map[], map[], map[];
      var rs, tt, cur;
      reached, rs, tt, cur := Assess(sys, temps);
      roles, targetTemps, current := rs, tt, cur;
      if reached != SpeedPolicy {
        return;
      }
      var sm;
      targets, rpms, sm := Control(sys, rs, tt, cur, now);
      smooth := sm;
    }

    /** `run_cycle` with the speed policy called as intended. `now` is the clock reading of
        line 165, also used as the new time of the last change. */
    method RunCycle(sys: Sysfs.Sysfs, sensorsData: Option<Value>, now: real)
      returns (cont: bool, ghost reached: Reached, ghost temps: map<string, real>, ghost roles: set<string>,
               ghost targetTemps: map<string, real>, ghost current: map<string, int>, ghost targets: map<string, int>,
               ghost rpms: map<string, int>, ghost smooth: map<string, int>)
      requires Valid()
      modifies this`consecutiveFailures, this`lastTargetSpeedsByRole, sys`files, fanIO`restoreCalls, fanIO`lastChangeTs, history, policy`roleState
      ensures Valid()
      ensures (consecutiveFailures, cont) == Cycle(old(consecutiveFailures), reached)
      ensures reached == NoSensorData <==> sensorsData.None?
      ensures sensorsData.Some? ==> temps == Temps(config, sensorsData.value)
      ensures reached == InvalidTemperatures <==> sensorsData.Some? && !Reasonable(temps)
      ensures SensorFailure(reached) ==>
        && history.State() == old(history.State())
        && policy.roleState == old(policy.roleState) && lastTargetSpeedsByRole == old(lastTargetSpeedsByRole)
        && fanIO.lastChangeTs == old(fanIO.lastChangeTs)
        && sys.files == (if cont then old(sys.files) else ApplyWrites(sys, old(sys.files), RestoreWrites(fanIO.fans, fanIO.originalPwmMode)))
      ensures !SensorFailure(reached) ==>
        && Updated(old(history.State()), temps, history.maxSamples, history.State())
        && (forall r :: r in roles <==> r in RolesSpec(config))
        && targetTemps == (map r | r in roles :: TargetTempForRole(r, history.Averaged(), config.criticalSensorsByRole))
        && (reached == CriticalTemperature <==> MapMax(temps) >= config.criticalTemp)
        && (reached == CriticalTemperature ==>
              sys.files == ApplyWrites(sys, old(sys.files), RestoreWrites(fanIO.fans, fanIO.originalPwmMode)))
        && (reached == NoCurrentSpeeds ==> sys.files == old(sys.files))
        && (reached != SpeedPolicy ==>
              && policy.roleState == old(policy.roleState) && lastTargetSpeedsByRole == old(lastTargetSpeedsByRole)
              && fanIO.lastChangeTs == old(fanIO.lastChangeTs))
        && (reached == SpeedPolicy ==>
              && current == Averages(SpeedSamples(sys, old(sys.files), fanIO.fans, roles)) && |current| > 0
              && PolicyRanExcept(config, policy.settings, old(policy.roleState), policy.roleState, roles, {}, targetTemps, current, targets)
              && rpms == Averages(RpmSamples(sys, old(sys.files), fanIO.fans, roles))
              && smooth == PostProcess(config, targets, current, rpms)
              && SpeedsApplied(config, sys, fanIO.fans, fanIO.cpuAuto, smooth, current, roles, now, old(sys.files), sys.files,
                               old(fanIO.lastChangeTs), fanIO.lastChangeTs, old(lastTargetSpeedsByRole), lastTargetSpeedsByRole))
    {
      roles, targetTemps, current, targets, rpms, smooth := {}, map[], map[], map[], map[], map[];
      var ok, ts;
      ok, cont, reached, ts := ReadTemperatures(sys, sensorsData);
      temps := ts;
      if !ok {
        return;
      }
      var stage;
      stage, roles, targetTemps, current, targets, rpms, smooth := Proceed(sys, ts, now);
      reached := stage;
      cont := stage != CriticalTemperature;
    }

    /** `run_cycle` as written: the call into the speed policy lacks the role and raises, so
        a cycle that gets that far counts one failure after the reset, goes on, and changes
        neither the policy's memory nor any fan speed. The call is reached only with a
        non-empty set of roles, since every current speed belongs to a requested role. */
    method RunCycleAsWritten(sys: Sysfs.Sysfs, sensorsData: Option<Value>)
      returns (cont: bool, ghost reached: Reached)
      requires Valid()
      modifies this`consecutiveFailures, sys`files, fanIO`restoreCalls, history
      ensures Valid()
      ensures (consecutiveFailures, cont) == CycleAsWritten(old(consecutiveFailures), reached)
      ensures reached == NoSensorData <==> sensorsData.None?
      ensures reached == InvalidTemperatures <==> sensorsData.Some? && !Reasonable(Temps(config, sensorsData.value))
      ensures reached == SpeedPolicy ==> consecutiveFailures == 1 && cont && sys.files == old(sys.files)
      ensures reached != CriticalTemperature && cont ==> sys.files == old(sys.files)
    {
      var ok, temps;
      ok, cont, reached, temps := ReadTemperatures(sys, sensorsData);
      if !ok {
        return;
      }
      var stage, roles, targetTemps, current := Assess(sys, temps);
      reached := stage;
      if stage != SpeedPolicy {
        cont := stage != CriticalTemperature;
        return;
      }
      cont := Failure(sys);
    }
  }
}
