/**
 * How role temperatures become duty percentages: a linear ramp with hysteresis, an
 * emergency override, a per-role adaptive state machine that steps down slowly and up in
 * bounded steps, a guard against lowering a fan below its RPM floor, and a final clamp.
 */
module Policy {
  import opened Wrappers
  import opened Text
  import opened Config
  import opened Sensors
  import opened Numeric

  function Max(a: int, b: int): int { if a >= b then a else b }
  function Min(a: int, b: int): int { if a <= b then a else b }
  function MaxR(a: real, b: real): real { if a >= b then a else b }
  function MinR(a: real, b: real): real { if a <= b then a else b }
  function Abs(x: real): real { if x < 0.0 then -x else x }

  /** Python `int(x)` on a float: truncation toward zero. */
  function Trunc(x: real): (r: int)
    ensures x >= 0.0 ==> r as real <= x < r as real + 1.0
    ensures x < 0.0 ==> r as real - 1.0 < x <= r as real
  {
    if x >= 0.0 then x.Floor else -((-x).Floor)
  }

  /** `int(ratio * span)`: the truncated share of a span. */
  function Share(ratio: real, span: int): int {
    Trunc(ratio * span as real)
  }

  lemma TruncMonotone(x: real, y: real)
    requires x <= y
    ensures Trunc(x) <= Trunc(y)
  {
  }

  /** The adaptive settings `_load_adaptive_settings` derives from the configuration. */
  datatype AdaptiveSettings = AdaptiveSettings(
    enabled: bool,
    dropStep: int,
    raiseStep: int,
    stableCyclesRequired: int,
    tempWindow: real,
    tempAggressive: real,
    rampStart: real,
    maxSpeed: int,
    minSpeed: int)

  /** `_load_adaptive_settings`: adaptive control on by default; the step sizes and the
      stability requirement are at least 1 whatever the configuration says. */
  function LoadAdaptiveSettings(cfg: DaemonConfig): (s: AdaptiveSettings)
    ensures s.dropStep >= 1 && s.raiseStep >= 1 && s.stableCyclesRequired >= 1
    ensures s.enabled == cfg.adaptiveEnabled.GetOr(true)
    ensures cfg.adaptiveDropStep.None? ==> s.dropStep == 5
    ensures cfg.adaptiveRaiseStep.None? ==> s.raiseStep == 15
    ensures cfg.adaptiveStableCycles.None? ==> s.stableCyclesRequired == 5
    ensures cfg.adaptiveDropStep.Some? && cfg.adaptiveDropStep.value >= 1 ==> s.dropStep == cfg.adaptiveDropStep.value
    ensures cfg.adaptiveRaiseStep.Some? && cfg.adaptiveRaiseStep.value >= 1 ==> s.raiseStep == cfg.adaptiveRaiseStep.value
    ensures cfg.adaptiveStableCycles.Some? && cfg.adaptiveStableCycles.value >= 1 ==> s.stableCyclesRequired == cfg.adaptiveStableCycles.value
    ensures s.tempWindow == cfg.adaptiveTempWindow.GetOr(1.5) && s.tempAggressive == cfg.adaptiveTempAggressive.GetOr(3.0)
    ensures s.rampStart == cfg.rampStart && s.maxSpeed == cfg.maxFanSpeed && s.minSpeed == cfg.curveMinSpeed
  {
    AdaptiveSettings(
      cfg.adaptiveEnabled.GetOr(true),
      Max(1, cfg.adaptiveDropStep.GetOr(5)),
      Max(1, cfg.adaptiveRaiseStep.GetOr(15)),
      Max(1, cfg.adaptiveStableCycles.GetOr(5)),
      cfg.adaptiveTempWindow.GetOr(1.5),
      cfg.adaptiveTempAggressive.GetOr(3.0),
      cfg.rampStart,
      cfg.maxFanSpeed,
      cfg.curveMinSpeed)
  }

  // ---------------------------------------------------------------------------------------
  // The ramp curve

  /** The ramp width, never below one degree. */
  function RampRange(cfg: DaemonConfig): real {
    MaxR(cfg.rampRange, 1.0)
  }

  /** The temperature at or below which the curve gives its minimum: the ramp start, lowered
      by the hysteresis while the fan runs above the minimum speed. */
  function EffectiveThreshold(cfg: DaemonConfig, currentPercent: int, hysteresis: real): real {
    cfg.rampStart - (if currentPercent > cfg.curveMinSpeed then hysteresis else 0.0)
  }

  function RampRatio(cfg: DaemonConfig, targetTemp: real, currentPercent: int, hysteresis: real): real {
    MaxR(0.0, MinR(1.0, (targetTemp - EffectiveThreshold(cfg, currentPercent, hysteresis)) / RampRange(cfg)))
  }

  /** `_target_percent`. */
  function TargetPercent(cfg: DaemonConfig, targetTemp: real, currentPercent: int, hysteresis: real, maxSpeed: int): int {
    var minSpeed := cfg.curveMinSpeed;
    if targetTemp <= EffectiveThreshold(cfg, currentPercent, hysteresis) then minSpeed
    else if targetTemp >= cfg.rampStart + RampRange(cfg) then maxSpeed
    else minSpeed + Share(RampRatio(cfg, targetTemp, currentPercent, hysteresis), maxSpeed - minSpeed)
  }

  /** The three cases of the curve: the minimum at or below the threshold, the maximum at or
      above the end of the ramp, and in between the minimum plus the truncated share of the
      span given by a ratio in [0, 1]; the result always lies between the two speeds. */
  lemma TargetPercentCases(cfg: DaemonConfig, targetTemp: real, currentPercent: int, hysteresis: real, maxSpeed: int)
    ensures var r := TargetPercent(cfg, targetTemp, currentPercent, hysteresis, maxSpeed);
      var eff := EffectiveThreshold(cfg, currentPercent, hysteresis);
      && (targetTemp <= eff ==> r == cfg.curveMinSpeed)
      && (eff < targetTemp && targetTemp >= cfg.rampStart + RampRange(cfg) ==> r == maxSpeed)
      && (eff < targetTemp < cfg.rampStart + RampRange(cfg) ==>
            var ratio := RampRatio(cfg, targetTemp, currentPercent, hysteresis);
            0.0 <= ratio <= 1.0 && r == cfg.curveMinSpeed + Share(ratio, maxSpeed - cfg.curveMinSpeed))
      && (cfg.curveMinSpeed <= maxSpeed ==> cfg.curveMinSpeed <= r <= maxSpeed)
      && RampRange(cfg) >= 1.0
  {
    if cfg.curveMinSpeed <= maxSpeed {
      RampShareBounds(RampRatio(cfg, targetTemp, currentPercent, hysteresis), maxSpeed - cfg.curveMinSpeed);
    }
  }

  /** The truncated share of a span by a ratio in [0, 1] lies within the span. */
  lemma RampShareBounds(ratio: real, span: int)
    requires 0.0 <= ratio <= 1.0 && span >= 0
    ensures 0 <= Share(ratio, span) <= span
  {
    MulBounds(ratio, span as real);
    TruncMonotone(0.0, ratio * span as real);
    TruncMonotone(ratio * span as real, span as real);
  }

  lemma MulBounds(ratio: real, span: real)
    requires 0.0 <= ratio <= 1.0 && span >= 0.0
    ensures 0.0 <= ratio * span <= span
  {
  }

  /** A larger ratio never gives a smaller truncated share. */
  lemma RampShareMonotone(r1: real, r2: real, span: int)
    requires r1 <= r2 && span >= 0
    ensures Share(r1, span) <= Share(r2, span)
  {
    MulMonotoneR(r1, r2, span as real);
    TruncMonotone(r1 * span as real, r2 * span as real);
  }

  /** The hysteresis matters only while the fan runs above the minimum speed. */
  lemma HysteresisOnlyAboveMinimum(cfg: DaemonConfig, targetTemp: real, currentPercent: int, h1: real, h2: real, maxSpeed: int)
    requires currentPercent <= cfg.curveMinSpeed
    ensures TargetPercent(cfg, targetTemp, currentPercent, h1, maxSpeed) == TargetPercent(cfg, targetTemp, currentPercent, h2, maxSpeed)
  {
  }

  /** A hotter reading never gives a lower target, for a fixed current speed. */
  lemma TargetPercentMonotone(cfg: DaemonConfig, t1: real, t2: real, currentPercent: int, hysteresis: real, maxSpeed: int)
    requires t1 <= t2 && cfg.curveMinSpeed <= maxSpeed
    ensures TargetPercent(cfg, t1, currentPercent, hysteresis, maxSpeed) <= TargetPercent(cfg, t2, currentPercent, hysteresis, maxSpeed)
  {
    var eff := EffectiveThreshold(cfg, currentPercent, hysteresis);
    var end := cfg.rampStart + RampRange(cfg);
    if t1 <= eff {
      TargetPercentCases(cfg, t2, currentPercent, hysteresis, maxSpeed);
    } else if t1 < end {
      TargetPercentCases(cfg, t1, currentPercent, hysteresis, maxSpeed);
      if t2 < end {
        MiddleMonotone(cfg, t1, t2, currentPercent, hysteresis, maxSpeed);
      }
    }
  }

  lemma MiddleMonotone(cfg: DaemonConfig, t1: real, t2: real, currentPercent: int, hysteresis: real, maxSpeed: int)
    requires t1 <= t2 && cfg.curveMinSpeed <= maxSpeed
    requires EffectiveThreshold(cfg, currentPercent, hysteresis) < t1 && t2 < cfg.rampStart + RampRange(cfg)
    ensures TargetPercent(cfg, t1, currentPercent, hysteresis, maxSpeed) <= TargetPercent(cfg, t2, currentPercent, hysteresis, maxSpeed)
  {
    RampRatioMonotone(cfg, t1, t2, currentPercent, hysteresis);
    RampShareMonotone(RampRatio(cfg, t1, currentPercent, hysteresis), RampRatio(cfg, t2, currentPercent, hysteresis),
                      maxSpeed - cfg.curveMinSpeed);
  }

  lemma RampRatioMonotone(cfg: DaemonConfig, t1: real, t2: real, currentPercent: int, hysteresis: real)
    requires t1 <= t2
    ensures RampRatio(cfg, t1, currentPercent, hysteresis) <= RampRatio(cfg, t2, currentPercent, hysteresis)
  {
    var eff := EffectiveThreshold(cfg, currentPercent, hysteresis);
    DivMonotoneR(t1 - eff, t2 - eff, RampRange(cfg));
  }

  lemma DivMonotoneR(a: real, b: real, d: real)
    requires a <= b && d > 0.0
    ensures a / d <= b / d
  {
  }

  lemma MulMonotoneR(a: real, b: real, c: real)
    requires a <= b && c >= 0.0
    ensures a * c <= b * c
  {
  }

  // ---------------------------------------------------------------------------------------
  // The adaptive state machine

  /** What the policy remembers about a role between cycles. */
  datatype RoleState = RoleState(stableCycles: int, lastTemp: real, lastSpeed: int)

  /** A stability count within [0, 3 * required], as the adaptive step keeps it. */
  predicate StableInRange(s: AdaptiveSettings, stable: int) {
    0 <= stable <= s.stableCyclesRequired * 3
  }

  /** The adaptive core of `calculate_fan_speed`: from the base target, the current speed,
      the temperature change since the last call, the temperature and the stability count,
      the new raw speed and stability count. */
  function Adapt(s: AdaptiveSettings, base: int, current: int, delta: real, targetTemp: real, stable: int): (int, int) {
    if base < current then
      var counted := if delta <= 0.0 || Abs(delta) <= s.tempWindow then Min(stable + 1, s.stableCyclesRequired * 3) else 0;
      if counted >= s.stableCyclesRequired && targetTemp <= s.rampStart then (Max(current - s.dropStep, base), 0)
      else (current, counted)
    else if base > current then
      (if delta >= s.tempAggressive || targetTemp >= s.rampStart then base else Min(base, current + s.raiseStep), 0)
    else
      (base, if Abs(delta) > s.tempWindow then 0 else Min(stable + 1, s.stableCyclesRequired * 3))
  }

  /** A falling target is followed slowly: never below the base target, by at most one drop
      step, and only once the count of stable cycles reaches the requirement at a
      temperature no higher than the ramp start; otherwise the current speed is held. A drop
      resets the count. */
  lemma AdaptFalling(s: AdaptiveSettings, base: int, current: int, delta: real, targetTemp: real, stable: int)
    requires base < current && s.dropStep >= 1
    ensures var (n, st) := Adapt(s, base, current, delta, targetTemp, stable);
      var counted := if delta <= 0.0 || Abs(delta) <= s.tempWindow then Min(stable + 1, s.stableCyclesRequired * 3) else 0;
      && base <= n <= current
      && current - n <= s.dropStep
      && (n < current ==> counted >= s.stableCyclesRequired && targetTemp <= s.rampStart && st == 0)
      && (counted >= s.stableCyclesRequired && targetTemp <= s.rampStart ==> n == Max(current - s.dropStep, base))
      && (!(counted >= s.stableCyclesRequired && targetTemp <= s.rampStart) ==> n == current && st == counted)
  {
  }

  /** A rising target is met at once when the temperature jumps or is past the ramp start,
      otherwise approached by at most one raise step; the count resets either way. */
  lemma AdaptRising(s: AdaptiveSettings, base: int, current: int, delta: real, targetTemp: real, stable: int)
    requires base > current && s.raiseStep >= 1
    ensures var (n, st) := Adapt(s, base, current, delta, targetTemp, stable);
      && st == 0
      && current < n <= base
      && (delta >= s.tempAggressive || targetTemp >= s.rampStart ==> n == base)
      && (!(delta >= s.tempAggressive || targetTemp >= s.rampStart) ==> n == Min(base, current + s.raiseStep))
  {
  }

  /** At the target, the speed stays and the count grows while the temperature is steady. */
  lemma AdaptSteady(s: AdaptiveSettings, base: int, delta: real, targetTemp: real, stable: int)
    ensures var (n, st) := Adapt(s, base, base, delta, targetTemp, stable);
      n == base && (Abs(delta) > s.tempWindow ==> st == 0)
      && (Abs(delta) <= s.tempWindow ==> st == Min(stable + 1, s.stableCyclesRequired * 3))
  {
  }

  /** The stability count stays within [0, 3 * required]. */
  lemma AdaptKeepsStableInRange(s: AdaptiveSettings, base: int, current: int, delta: real, targetTemp: real, stable: int)
    requires s.stableCyclesRequired >= 1 && StableInRange(s, stable)
    ensures StableInRange(s, Adapt(s, base, current, delta, targetTemp, stable).1)
  {
  }

  /** `max(min_speed, min(max_speed, x))`. */
  function FinalClamp(s: AdaptiveSettings, x: int): int {
    Max(s.minSpeed, Min(s.maxSpeed, x))
  }

  function Lookup(m: map<string, RoleState>, role: string): Option<RoleState> {
    if role in m then Some(m[role]) else None
  }

  /** One `calculate_fan_speed` call for one role: the speed returned and the role's state
      afterwards, from the role's state before (`None` when it has none yet). */
  function SpeedStep(cfg: DaemonConfig, s: AdaptiveSettings, state: Option<RoleState>, targetTemp: real, currentSpeed: Option<int>)
    : (int, Option<RoleState>)
  {
    if targetTemp >= cfg.emergencyTemp then (cfg.maxFanSpeed, state)
    else
      var base := TargetPercent(cfg, targetTemp, currentSpeed.GetOr(0), cfg.hysteresis, cfg.maxFanSpeed);
      if !s.enabled then (base, state)
      else
        var current := currentSpeed.GetOr(base);
        var st := state.GetOr(RoleState(0, targetTemp, current));
        var (newSpeed, stable) := Adapt(s, base, current, targetTemp - st.lastTemp, targetTemp, st.stableCycles);
        (FinalClamp(s, newSpeed), Some(RoleState(stable, targetTemp, newSpeed)))
  }

  /** The outcomes of one call: at or above the emergency temperature the configured maximum,
      unclamped and with no state change; with adaptation off the curve's target and no state
      change; otherwise the adaptive speed clamped to the curve's range, with the role's
      state recording this temperature, the unclamped speed, and a count kept in range. */
  lemma SpeedStepOutcomes(cfg: DaemonConfig, s: AdaptiveSettings, state: Option<RoleState>, targetTemp: real, currentSpeed: Option<int>)
    requires s.stableCyclesRequired >= 1
    requires state.Some? ==> StableInRange(s, state.value.stableCycles)
    ensures var (speed, next) := SpeedStep(cfg, s, state, targetTemp, currentSpeed);
      var base := TargetPercent(cfg, targetTemp, currentSpeed.GetOr(0), cfg.hysteresis, cfg.maxFanSpeed);
      && (targetTemp >= cfg.emergencyTemp ==> speed == cfg.maxFanSpeed && next == state)
      && (targetTemp < cfg.emergencyTemp && !s.enabled ==> speed == base && next == state)
      && (targetTemp < cfg.emergencyTemp && s.enabled ==>
            && next.Some? && next.value.lastTemp == targetTemp && StableInRange(s, next.value.stableCycles)
            && speed == FinalClamp(s, next.value.lastSpeed)
            && (s.minSpeed <= s.maxSpeed ==> s.minSpeed <= speed <= s.maxSpeed))
  {
    if targetTemp < cfg.emergencyTemp && s.enabled {
      var base := TargetPercent(cfg, targetTemp, currentSpeed.GetOr(0), cfg.hysteresis, cfg.maxFanSpeed);
      var current := currentSpeed.GetOr(base);
      var st := state.GetOr(RoleState(0, targetTemp, current));
      AdaptKeepsStableInRange(s, base, current, targetTemp - st.lastTemp, targetTemp, st.stableCycles);
    }
  }

  /** The policy's state: the per-role adaptive memory. */
  class SpeedPolicy {
    const config: DaemonConfig
    const settings: AdaptiveSettings
    var roleState: map<string, RoleState>

    ghost predicate Valid()
      reads this
    {
      settings.stableCyclesRequired >= 1 && forall r :: r in roleState ==> StableInRange(settings, roleState[r].stableCycles)
    }

    constructor (config: DaemonConfig)
      ensures this.config == config && settings == LoadAdaptiveSettings(config) && roleState == map[]
      ensures Valid()
    {
      this.config := config;
      settings := LoadAdaptiveSettings(config);
      roleState := map[];
    }

    /** `calculate_fan_speed`: only the given role's state can change. */
    method CalculateFanSpeed(role: string, targetTemp: real, currentSpeed: Option<int>) returns (speed: int)
      requires Valid()
      modifies this`roleState
      ensures Valid()
      ensures var (sp, next) := SpeedStep(config, settings, Lookup(old(roleState), role), targetTemp, currentSpeed);
        speed == sp && roleState == if next.Some? then old(roleState)[role := next.value] else old(roleState)
    {
      SpeedStepOutcomes(config, settings, Lookup(roleState, role), targetTemp, currentSpeed);
      if targetTemp >= config.emergencyTemp {
        return config.maxFanSpeed;
      }
      var baseTarget := TargetPercent(config, targetTemp, currentSpeed.GetOr(0), config.hysteresis, config.maxFanSpeed);
      if !settings.enabled {
        return baseTarget;
      }
      var current := currentSpeed.GetOr(baseTarget);
      if role !in roleState {
        roleState := roleState[role := RoleState(0, targetTemp, current)];
      }
      var state := roleState[role];
      var (newSpeed, stable) := Adapt(settings, baseTarget, current, targetTemp - state.lastTemp, targetTemp, state.stableCycles);
      roleState := roleState[role := RoleState(stable, targetTemp, newSpeed)];
      speed := FinalClamp(settings, newSpeed);
    }
  }

  // ---------------------------------------------------------------------------------------
  // Post-processing of the targets

  /** The guard's estimate `cur_rpm * (target / cur_pct)` falls below the RPM floor. */
  predicate BelowFloor(rpm: int, target: int, current: int, floor: int)
    requires current > 0
  {
    (rpm as real) * ((target as real) / (current as real)) < floor as real
  }

  /** Whether `clamp_floor_when_lowering` keeps a role at its current speed. */
  predicate HoldsAtCurrent(role: string, targets: map<string, int>, currents: map<string, int>, rpms: map<string, int>, floor: int)
    requires role in targets
  {
    role in currents && currents[role] > 0 && role in rpms && rpms[role] > 0 && targets[role] < currents[role]
    && BelowFloor(rpms[role], targets[role], currents[role], floor)
  }

  /** `clamp_floor_when_lowering`. */
  function ClampFloorWhenLowering(cfg: DaemonConfig, targets: map<string, int>, currents: map<string, int>, rpms: map<string, int>)
    : (r: map<string, int>)
    ensures r.Keys == targets.Keys
  {
    map role | role in targets ::
      if HoldsAtCurrent(role, targets, currents, rpms, cfg.rpmIgnoreFloor) then currents[role] else targets[role]
  }

  /** The floor estimate in integers: below the floor exactly when `rpm * target < floor * cur`. */
  lemma BelowFloorIff(rpm: int, target: int, current: int, floor: int)
    requires current > 0
    ensures BelowFloor(rpm, target, current, floor) <==> rpm * target < floor * current
  {
    var c := current as real;
    var lhs := (rpm as real) * ((target as real) / c);
    assert lhs * c == (rpm * target) as real;
    if lhs < floor as real {
      assert lhs * c < (floor as real) * c;
    } else {
      assert lhs * c >= (floor as real) * c;
    }
  }

  /** Raises and unchanged targets pass; a lowering is undone, back to the current speed,
      exactly when it would take a spinning fan (known speed and RPM above zero) below the
      RPM floor by the proportional estimate; the result is never below the requested target. */
  lemma ClampFloorCharacterized(cfg: DaemonConfig, targets: map<string, int>, currents: map<string, int>, rpms: map<string, int>, role: string)
    requires role in targets
    ensures var r := ClampFloorWhenLowering(cfg, targets, currents, rpms);
      && role in r
      && r[role] >= targets[role]
      && (role !in currents || targets[role] >= currents[role] ==> r[role] == targets[role])
      && (r[role] != targets[role] <==>
            role in currents && currents[role] > 0 && role in rpms && rpms[role] > 0 && targets[role] < currents[role]
            && rpms[role] * targets[role] < cfg.rpmIgnoreFloor * currents[role])
      && (r[role] != targets[role] ==> r[role] == currents[role])
  {
    if role in currents && currents[role] > 0 {
      BelowFloorIff(if role in rpms then rpms[role] else 0, targets[role], currents[role], cfg.rpmIgnoreFloor);
    }
  }

  /** `smooth_targets`: every target clamped to 0..100, nothing else. */
  function SmoothTargets(targets: map<string, int>, currents: map<string, int>): (r: map<string, int>)
    ensures r.Keys == targets.Keys
    ensures forall role :: role in r ==> 0 <= r[role] <= 100
    ensures forall role :: role in r && 0 <= targets[role] <= 100 ==> r[role] == targets[role]
    ensures forall role :: role in r && targets[role] < 0 ==> r[role] == 0
    ensures forall role :: role in r && targets[role] > 100 ==> r[role] == 100
  {
    map role | role in targets :: Max(0, Min(100, targets[role]))
  }

  /** `apply_rpm_floors`: the targets are passed through unchanged. */
  function ApplyRpmFloors(targets: map<string, int>, currents: map<string, int>, rpms: map<string, int>): (r: map<string, int>)
    ensures r == targets
  {
    targets
  }

  // ---------------------------------------------------------------------------------------
  // Temperature aggregation

  /** The largest reading of a non-empty map. */
  function MapMax(m: map<string, real>): (r: real)
    requires |m| > 0
    ensures r in m.Values && forall k :: k in m ==> m[k] <= r
  {
    HasMax(m);
    var r :| r in m.Values && forall k :: k in m ==> m[k] <= r;
    r
  }

  lemma {:induction false} HasMax(m: map<string, real>)
    requires |m| > 0
    ensures exists r :: r in m.Values && forall k :: k in m ==> m[k] <= r
  {
    var x :| x in m;
    var rest := m - {x};
    if |rest| == 0 {
      assert m.Keys == rest.Keys + {x};
      assert m.Keys == {x};
      assert m[x] in m.Values && forall k :: k in m ==> m[k] <= m[x];
    } else {
      HasMax(rest);
      var r :| r in rest.Values && forall k :: k in rest ==> rest[k] <= r;
      var kr :| kr in rest && rest[kr] == r;
      assert m[kr] == r;
      if m[x] > r {
        assert m[x] in m.Values && forall k :: k in m ==> m[k] <= m[x] by {
          forall k | k in m ensures m[k] <= m[x] { if k != x { assert k in rest; } }
        }
      } else {
        assert r in m.Values && forall k :: k in m ==> m[k] <= r by {
          forall k | k in m ensures m[k] <= r { if k != x { assert k in rest; } }
        }
      }
    }
  }

  /** `target_temp_for_role`: the hottest of the role's readings, or 0.0 with no readings. */
  function TargetTempForRole(role: string, temperatures: map<string, real>, criticalSensorsByRole: map<string, seq<string>>): (r: real)
    ensures |temperatures| == 0 ==> r == 0.0
    ensures |temperatures| > 0 ==> var rt := ForRole(temperatures, criticalSensorsByRole, role);
      r in rt.Values && forall n :: n in rt ==> rt[n] <= r
  {
    ForRoleCharacterized(temperatures, criticalSensorsByRole, role);
    var roleTemps := ForRole(temperatures, criticalSensorsByRole, role);
    if |roleTemps| == 0 then 0.0 else MapMax(roleTemps)
  }

  ghost function Pick(m: map<string, real>): (k: string)
    requires |m| > 0
    ensures k in m
  {
    var k :| k in m; k
  }

  /** `sum(temps.values())`: the values of a map, summed key by key in an arbitrary order
      (addition does not depend on it). */
  ghost function MapSum(m: map<string, real>): real
    decreases |m|
  {
    if |m| == 0 then 0.0 else m[Pick(m)] + MapSum(m - {Pick(m)})
  }

  lemma {:induction false} MapSumBounds(m: map<string, real>, lo: real, hi: real)
    requires forall k :: k in m ==> lo <= m[k] <= hi
    ensures Times(|m|, lo) <= MapSum(m) <= Times(|m|, hi)
    decreases |m|
  {
    if |m| > 0 {
      var k := Pick(m);
      var rest := m - {k};
      MapSumBounds(rest, lo, hi);
      assert |rest| == |m| - 1;
    }
  }

  /** The mean of readings within [lo, hi] is within [lo, hi]. */
  lemma MapMeanWithin(m: map<string, real>, lo: real, hi: real)
    requires |m| > 0 && forall k :: k in m ==> lo <= m[k] <= hi
    ensures lo <= MapSum(m) / |m| as real <= hi
  {
    MapSumBounds(m, lo, hi);
    MeanBetween(MapSum(m), |m|, lo, hi);
  }

  /** Every token configured for any role. */
  ghost function AllTokens(criticalSensorsByRole: map<string, seq<string>>): set<string> {
    set role, i | role in criticalSensorsByRole && 0 <= i < |criticalSensorsByRole[role]| :: criticalSensorsByRole[role][i]
  }

  ghost predicate Critical(name: string, tokens: set<string>) {
    exists t :: t in tokens && Contains(AdapterOf(name), t)
  }

  /** `calculate_target_temperature` (not used by the controller): 0.0 with no readings;
      with critical-sensor tokens that match, 0.7 of the hottest matching reading plus 0.3
      of the mean of all readings; otherwise the hottest reading. */
  ghost function CalculateTargetTemperature(temperatures: map<string, real>, criticalSensorsByRole: map<string, seq<string>>): real {
    if |temperatures| == 0 then 0.0
    else
      var tokens := AllTokens(criticalSensorsByRole);
      var crit := map n | n in temperatures && Critical(n, tokens) :: temperatures[n];
      if |criticalSensorsByRole| > 0 && |crit| > 0 then
        MapMax(crit) * 0.7 + (MapSum(temperatures) / |temperatures| as real) * 0.3
      else MapMax(temperatures)
  }

  /** The aggregate lies between the coolest and the hottest reading. */
  lemma TargetTemperatureWithin(temperatures: map<string, real>, criticalSensorsByRole: map<string, seq<string>>, lo: real, hi: real)
    requires |temperatures| > 0 && forall n :: n in temperatures ==> lo <= temperatures[n] <= hi
    ensures lo <= CalculateTargetTemperature(temperatures, criticalSensorsByRole) <= hi
  {
    var tokens := AllTokens(criticalSensorsByRole);
    var crit := map n | n in temperatures && Critical(n, tokens) :: temperatures[n];
    if |criticalSensorsByRole| > 0 && |crit| > 0 {
      MapMeanWithin(temperatures, lo, hi);
      var c := MapMax(crit);
      var avg := MapSum(temperatures) / |temperatures| as real;
      assert lo <= c <= hi;
      MixWithin(c, avg, lo, hi);
    }
  }

  lemma MixWithin(c: real, avg: real, lo: real, hi: real)
    requires lo <= c <= hi && lo <= avg <= hi
    ensures lo <= c * 0.7 + avg * 0.3 <= hi
  {
  }


}
