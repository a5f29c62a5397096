# k8-fan-controller runtime core, modelled in Dafny

This project models the runtime core of the k8-fan-controller daemon. The daemon reads
temperatures from lm-sensors' JSON output, smooths them over a window of cycles, and picks
one governing temperature per fan role (`cpu`, `case`, ...). It then turns that temperature
into a duty-cycle percentage with a linear ramp, hysteresis and an adaptive state machine,
and writes the result to the fans' sysfs PWM files. Writes happen only when the change is
big enough and the last change is old enough. A critical temperature, or three failed
cycles in a row, hands the fans back to their saved `pwm*_enable` modes and stops the
daemon.

Each source file has a Dafny module of its own:

| module | file | form |
|---|---|---|
| `Config` | `k8_fan_controller/config.py` | `ConfigManager` is a class whose `Validate` updates its table; the checks are functions. |
| `SysfsUtils` | `k8_fan_controller/sysfs_utils.py` | Candidate-directory search and path resolution are methods with loops, proved against functions. |
| `FanIO` | `k8_fan_controller/fan_io.py` | `FanIO` is a class over a mutable sysfs. Writes, backups and per-role averages are specified by functions. |
| `Safety` | `k8_fan_controller/safety.py` | `SafetyManager` class. |
| `Sensors` | `k8_fan_controller/sensors.py` | Extraction is nested loops, proved against a fold. Filtering by role is a loop over the readings. |
| `Policy` | `k8_fan_controller/policy.py` | The ramp and the adaptive step are functions. `SpeedPolicy` is a class holding the per-role memory. |
| `Temperature` | `k8_fan_controller/temperature.py` | `TemperatureHistory` is a class whose `Update` is proved against the relation `Updated`. |
| `Controller` | `k8_fan_controller/controller.py` | `FanController.RunCycle` is one control cycle. |

Supporting modules:
- `Sysfs`: a class holding the file contents as a mutable map, plus the directories,
  symbolic links, glob results and unreadable or unwritable paths.
- `Values`: JSON/TOML values.
- `Text`: the string and path helpers the code relies on (`in` on strings, `split`,
  `strip`, `os.path.basename`/`dirname`/`join`, `int()`/`str()`, `sorted`).
- `Numeric` and `Wrappers`: small arithmetic lemmas and `Option`.

A fan entry is the datatype `Config.Fan`. An empty string in a field stands for a missing
or empty key, because the code only ever tests those keys for truthiness. Path resolution
does not mutate the fan dictionary. `ResolveFanPaths` returns the updated entry instead,
and `FanIO`'s constructor keeps the resolved list.

The components other than `ConfigManager` read a typed `DaemonConfig`. It holds the values
that the daemon's `int(...)`, `float(...)` and `bool(...)` conversions produce from a
validated table, with `Option` for keys that have a default at their point of use.

## Model

| member | source | states |
|---|---|---|
| `Config.FirstMissing` | k8_fan_controller/config.py:43-45 | Returns no key exactly when every required key is present. Otherwise it returns an absent key, and every key before it in the list is present. |
| `Config.FirstMissingAt` | k8_fan_controller/config.py:43-45 | When key `k` is the first absent one in list order, `k` is the key reported. |
| `Config.FanKeysErrorDict` | k8_fan_controller/config.py:52-54 | For a dictionary entry, no error is raised exactly when it has `name`, `role` and `pwm_path`. |
| `Config.CheckFanGood` | k8_fan_controller/config.py:51-62 | One fan entry passes exactly when it has the three keys and its `pwm_path` exists. A missing enable or RPM path only warns. |
| `Config.CheckFansGood` | k8_fan_controller/config.py:51-62 | The fan list passes exactly when every entry passes. |
| `Config.CheckFansPrefixErr` | k8_fan_controller/config.py:51-56 | The first failing entry decides the error: later entries are not looked at. |
| `Config.ValidateOkIff` | k8_fan_controller/config.py:34-68 | Validation succeeds exactly when: all 12 required keys are present, `fans` is a non-empty list, and every fan entry is good. |
| `Config.ValidateMissingKeyFirst` | k8_fan_controller/config.py:43-45 | When a required key is missing, a `KeyError` names the first missing key in the order of `required_top`, before anything else is checked. |
| `Config.NormalizedShape` | k8_fan_controller/config.py:64-68 | Normalization changes only `critical_sensors_by_role`, replacing a present non-dictionary value by `{}`. Every other key is kept. |
| `Config.ConfigManager.constructor` | k8_fan_controller/config.py:15-17 | The manager holds the loaded table. |
| `Config.ConfigManager.Save` | k8_fan_controller/config.py:27-32 | Saving always fails with the unsupported-operation error. |
| `Config.ConfigManager.Validate` | k8_fan_controller/config.py:34-68 | The outcome is the validation function's. The table is normalized only when validation succeeds. |
| `SysfsUtils.EnsureFanMetadataKeeps` | k8_fan_controller/sysfs_utils.py:18-42 | Only `pwm_attr`, `enable_attr` and `rpm_attr` change, and an attribute already set is never overwritten. |
| `SysfsUtils.EnsureFanMetadataIdempotent` | k8_fan_controller/sysfs_utils.py:18-42 | Deriving the metadata a second time changes nothing. |
| `SysfsUtils.EnsureFanMetadataDefaults` | k8_fan_controller/sysfs_utils.py:20-42 | From only `pwm_path = dir/pwmN`, the derived attributes are `pwmN`, `pwmN_enable` and `fanN_input`. |
| `SysfsUtils.DedupDirsSound` | k8_fan_controller/sysfs_utils.py:49-57 | The candidate list has no duplicates. It holds exactly the real paths of the offered paths that are directories. |
| `SysfsUtils.DedupDirsOrder` | k8_fan_controller/sysfs_utils.py:49-57 | Candidates keep the order in which they were first offered. |
| `SysfsUtils.DedupDirsCanonical` | k8_fan_controller/sysfs_utils.py:52-56 | When the file system's links are resolved, every candidate is a canonical path that `realpath` maps to itself. |
| `SysfsUtils.DedupDirsSnoc` | k8_fan_controller/sysfs_utils.py:49-57 | Offering one more path is one step of `add_path` on the list so far. |
| `SysfsUtils.AddPath` | k8_fan_controller/sysfs_utils.py:49-57 | `add_path` extends the list by the real path when it is an unseen directory. The `seen` set stays the set of listed candidates. |
| `SysfsUtils.AddPaths` | k8_fan_controller/sysfs_utils.py:71-72 | Offering paths in a loop gives the same list as deduplicating the whole offered sequence. |
| `SysfsUtils.AddNamed` | k8_fan_controller/sysfs_utils.py:74-79 | Only the hwmon directories whose `name` file matches `hwmon_name` are offered, in glob order. |
| `SysfsUtils.CandidateDirectories` | k8_fan_controller/sysfs_utils.py:45-85 | The candidates come from the hint, the PWM path's directory, the device's sorted hwmon dirs, the name matches and all hwmon dirs, in that order. They are deduplicated directories. |
| `SysfsUtils.PopulateRelatedPathsKeeps` | k8_fan_controller/sysfs_utils.py:143-164 | Only the hint, name, device, enable and RPM path fields change. Set hint, name and device fields are kept. A changed enable or RPM path is `hw_dir/attr` and exists. |
| `SysfsUtils.FirstHolding` | k8_fan_controller/sysfs_utils.py:112-114 | Finds the first candidate directory that contains the attribute, or reports that none does. |
| `SysfsUtils.FindHolding` | k8_fan_controller/sysfs_utils.py:112-114 | The search loop returns the first directory that holds the attribute. |
| `SysfsUtils.FirstHoldingAt` | k8_fan_controller/sysfs_utils.py:112-132 | The earliest directory that holds the attribute is the one chosen. |
| `SysfsUtils.FirstHoldingNone` | k8_fan_controller/sysfs_utils.py:134-140 | When no candidate holds the attribute, nothing is chosen. |
| `SysfsUtils.ResolveFanPaths` | k8_fan_controller/sysfs_utils.py:88-140 | The resolved entry and the success flag are those of the resolution function. |
| `SysfsUtils.ResolveOutcomes` | k8_fan_controller/sysfs_utils.py:88-140 | An existing `pwm_path` succeeds and re-hints its real directory. Without one, a missing `pwm_attr` fails. Otherwise the call succeeds exactly when some candidate holds the attribute; it then takes the first such candidate's real path and hint. |
| `SysfsUtils.ResolvedFansEach` | k8_fan_controller/sysfs_utils.py:167-173 | Every fan is resolved in place of the original entry, and success means every fan resolved. |
| `SysfsUtils.ResolvedFansAt` | k8_fan_controller/sysfs_utils.py:167-173 | Fan `i` of the result is fan `i` resolved. |
| `SysfsUtils.AllResolveFails` | k8_fan_controller/sysfs_utils.py:167-173 | When the overall result is false, some fan failed to resolve. |
| `SysfsUtils.ResolveAllFans` | k8_fan_controller/sysfs_utils.py:167-173 | The loop resolves every fan, even after a failure, and reports whether all succeeded. |
| `FanIO.PercentToPwm` | k8_fan_controller/fan_io.py:24-27 | The clamped percentage times 255/100, truncated, in 0..255. |
| `FanIO.PwmToPercent` | k8_fan_controller/fan_io.py:29-32 | The clamped PWM value times 100/255, rounded to nearest, in 0..100. |
| `FanIO.ConversionEndpoints` | k8_fan_controller/fan_io.py:24-32 | 0% is PWM 0 and 100% is PWM 255, both ways. |
| `FanIO.ConversionsMonotone` | k8_fan_controller/fan_io.py:24-32 | Both conversions are monotone. |
| `FanIO.PercentPwmRoundTrip` | k8_fan_controller/fan_io.py:24-32 | Converting a percentage to PWM and back gives the clamped percentage. |
| `FanIO.ApplyWritesAt` | k8_fan_controller/fan_io.py:64-81 | A sequence of writes keeps the set of files. Each file ends with the last value successfully written to its real path, or keeps its old contents. |
| `FanIO.ApplyWritesIdempotent` | k8_fan_controller/fan_io.py:11-12 | Repeating the same sequence of writes changes nothing more. |
| `FanIO.BackupSound` | k8_fan_controller/fan_io.py:34-46 | The backup keeps earlier saved modes. It adds only readable enable paths of configured fans, with their stripped contents. It has every readable enable path. |
| `FanIO.BackupKeeps` | k8_fan_controller/fan_io.py:40-41 | An enable path already saved is never read again. |
| `FanIO.BackupNew` | k8_fan_controller/fan_io.py:42-44 | A newly saved mode is the stripped contents of a configured fan's enable path. |
| `FanIO.BackupComplete` | k8_fan_controller/fan_io.py:38-44 | Every readable enable path is saved. |
| `FanIO.BackupRestore` | k8_fan_controller/fan_io.py:34-77 | After a backup from nothing, restoring writes back each readable enable path's saved mode, whatever was written in between. |
| `FanIO.SpeedSamplesWithin` | k8_fan_controller/fan_io.py:83-97 | Every PWM sample is a percentage in 0..100 of a requested role. |
| `FanIO.RpmSamplesWithin` | k8_fan_controller/fan_io.py:99-115 | Every RPM sample is positive, at most the largest readable value, and belongs to a requested role. |
| `FanIO.SpeedAveragesWithin` | k8_fan_controller/fan_io.py:97 | Per-role average speeds are in 0..100 and only for requested roles. |
| `FanIO.RpmAveragesWithin` | k8_fan_controller/fan_io.py:115 | Per-role average RPMs are positive and within the sample bounds. |
| `FanIO.SpeedReadBack` | k8_fan_controller/fan_io.py:117-137 | A fan whose speed was written reads back the clamped target percentage, unless a later fan shares its PWM file. |
| `FanIO.ReadPwmPercent` | k8_fan_controller/fan_io.py:90-94 | Reading a fan's PWM file gives its sample: the file parsed as an integer and converted to percent, or nothing when that fails. |
| `FanIO.ReadRpm` | k8_fan_controller/fan_io.py:107-112 | Reading a fan's RPM file gives its sample: a positive integer, or nothing. |
| `FanIO.FanIO.constructor` | k8_fan_controller/fan_io.py:15-22 | Every configured fan is resolved; there is no saved mode yet, and the last change time is 0. |
| `FanIO.FanIO.BackupCurrentPwmMode` | k8_fan_controller/fan_io.py:34-46 | The saved modes become the backup of the current files over the earlier saved modes (none at first). |
| `FanIO.FanIO.EnableModesFromConfig` | k8_fan_controller/fan_io.py:48-62 | Each fan with an enable path gets `2` when it is a CPU fan and `cpu_auto` is set, and `1` otherwise. Failed writes are skipped. |
| `FanIO.FanIO.RestoreAutomaticMode` | k8_fan_controller/fan_io.py:64-81 | Each enable path gets its saved mode, or `2` when none was saved. |
| `FanIO.FanIO.SetFanSpeedsByRole` | k8_fan_controller/fan_io.py:117-143 | Each fan of a requested role with a target gets the clamped target as PWM, except CPU fans under `cpu_auto`. The result is whether every write succeeded. The last change time moves to `now` only then. |
| `FanIO.FanIO.GetCurrentSpeedByRole` | k8_fan_controller/fan_io.py:83-97 | The truncated mean of the readable PWM percentages per requested role, each in 0..100. |
| `FanIO.FanIO.GetCurrentRpmByRole` | k8_fan_controller/fan_io.py:99-115 | The truncated mean of the positive RPM readings per requested role. |
| `Safety.SafetyManager.constructor` | k8_fan_controller/safety.py:9-12 | The manager uses the configured critical temperature. |
| `Safety.SafetyManager.HandleCriticalTemperature` | k8_fan_controller/safety.py:14-23 | Critical exactly when the maximum is at least `critical_temp`. The saved modes are then restored once. Otherwise nothing is written. |
| `Sensors.AnyToken` | k8_fan_controller/sensors.py:80 | True exactly when some token occurs as a substring of the name. |
| `Sensors.Reading` | k8_fan_controller/sensors.py:89-90 | A value is recorded only when it is a positive number. |
| `Sensors.FallbackNeverFires` | k8_fan_controller/sensors.py:96-107 | The `Tctl`/`edge`/`Composite` fallbacks never record anything, because they require a sensor value that is a dictionary and a number at once. |
| `Sensors.ExtractTemperatures` | k8_fan_controller/sensors.py:71-110 | The nested loops compute the fold over adapters, sensors and temperature keys. |
| `Sensors.KeysFoldSound` | k8_fan_controller/sensors.py:88-93 | Scanning the temperature keys of one sensor keeps earlier readings and adds only its positive `tempN_input` values. It adds all of them. |
| `Sensors.SensorStepSound` | k8_fan_controller/sensors.py:84-107 | One sensor adds exactly its own positive temperature inputs, and only when it is a dictionary. |
| `Sensors.SensorsFoldSound` | k8_fan_controller/sensors.py:84-107 | An adapter's readings come from its dictionary sensors and are positive. |
| `Sensors.SensorsFoldComplete` | k8_fan_controller/sensors.py:84-107 | Every temperature input of a dictionary sensor is recorded. |
| `Sensors.AdaptersFoldSound` | k8_fan_controller/sensors.py:79-107 | Every recorded reading is positive and comes from a whitelisted dictionary adapter. |
| `Sensors.AdaptersFoldComplete` | k8_fan_controller/sensors.py:79-107 | Every temperature input of a whitelisted adapter's sensors is recorded. |
| `Sensors.ExtractCharacterized` | k8_fan_controller/sensors.py:71-110 | Empty or non-dictionary data yields nothing. Otherwise the readings are exactly the positive `temp1..3_input` values of sensors of whitelisted adapters, named `adapter:sensor:key`. |
| `Sensors.ValidateTemperatures` | k8_fan_controller/sensors.py:112-129 | Accepts exactly a non-empty set of readings, all within 0..150 °C. |
| `Sensors.SensorsForRole` | k8_fan_controller/sensors.py:131-142 | The filtering loop computes the role's view of the readings. |
| `Sensors.ForRoleCharacterized` | k8_fan_controller/sensors.py:131-142 | The view is a sub-map of the readings, non-empty when they are. With no adapters for the role it is all readings. When some reading's adapter matches, it is exactly the matching readings; otherwise it is all readings. |
| `Policy.Trunc` | k8_fan_controller/policy.py:211 | Python `int()` on a float truncates toward zero. |
| `Policy.LoadAdaptiveSettings` | k8_fan_controller/policy.py:19-29 | The steps and stable-cycle count are at least 1. The defaults are 5, 15, 5, 1.5 and 3.0, adaptive mode is on by default, and the curve values are copied. |
| `Policy.TargetPercentCases` | k8_fan_controller/policy.py:193-211 | At or below the effective threshold: the minimum speed. At or beyond the end of the ramp: the maximum. Between them: the minimum plus the truncated ramp share. The result stays within min..max, and the ramp range is at least 1. |
| `Policy.HysteresisOnlyAboveMinimum` | k8_fan_controller/policy.py:202 | Hysteresis has no effect while the current speed is at or below the curve minimum. |
| `Policy.TargetPercentMonotone` | k8_fan_controller/policy.py:193-211 | A hotter temperature never gives a lower base target. |
| `Policy.RampShareBounds` | k8_fan_controller/policy.py:209-211 | The ramp share is within 0..span. |
| `Policy.RampShareMonotone` | k8_fan_controller/policy.py:209-211 | The ramp share is monotone in the ratio. |
| `Policy.AdaptFalling` | k8_fan_controller/policy.py:92-119 | Below the current speed, the speed drops by at most `drop_step` and never under the base. It drops only after enough stable cycles at or below `ramp_start`, which also resets the count. Otherwise it holds. |
| `Policy.AdaptRising` | k8_fan_controller/policy.py:120-135 | Above the current speed, the count resets. The speed jumps to the base on a fast rise or past `ramp_start`, and otherwise rises by at most `raise_step`. |
| `Policy.AdaptSteady` | k8_fan_controller/policy.py:136-140 | At the current speed, the speed is kept. The stable count resets on a large temperature change and otherwise grows. |
| `Policy.AdaptKeepsStableInRange` | k8_fan_controller/policy.py:92-142 | The stable count stays within 0..3×`stable_cycles_required`. |
| `Policy.SpeedStepOutcomes` | k8_fan_controller/policy.py:59-146 | At emergency temperature: the maximum speed, with the memory untouched. Non-adaptive: the base target. Adaptive: the new memory records this temperature, and the result is the remembered speed clamped to min..max. |
| `Policy.SpeedPolicy.constructor` | k8_fan_controller/policy.py:13-17 | The settings are loaded and the per-role memory is empty. |
| `Policy.SpeedPolicy.CalculateFanSpeed` | k8_fan_controller/policy.py:59-146 | The speed and the role's new memory are the step function's. Other roles' memory is untouched. |
| `Policy.ClampFloorWhenLowering` | k8_fan_controller/policy.py:156-179 | The same roles as the targets. |
| `Policy.BelowFloorIff` | k8_fan_controller/policy.py:173-174 | The estimated RPM is under the floor exactly when `rpm × target < floor × current`. |
| `Policy.ClampFloorCharacterized` | k8_fan_controller/policy.py:156-179 | A target is never lowered and raises are untouched. A lowering is replaced by the current speed exactly when the current speed and RPM are positive and the estimate falls under `rpm_ignore_floor`. |
| `Policy.SmoothTargets` | k8_fan_controller/policy.py:181-190 | Every target is clamped into 0..100, and the roles are unchanged. |
| `Policy.ApplyRpmFloors` | k8_fan_controller/policy.py:148-154 | Returns the targets unchanged. |
| `Policy.MapMax` | k8_fan_controller/policy.py:57 | The maximum is one of the values and bounds all of them. |
| `Policy.TargetTempForRole` | k8_fan_controller/policy.py:52-57 | 0 with no readings. Otherwise the maximum of the role's view of the readings. |
| `Policy.MapMeanWithin` | k8_fan_controller/policy.py:48 | The average of all readings lies within their bounds. |
| `Policy.TargetTemperatureWithin` | k8_fan_controller/policy.py:31-50 | The aggregate temperature lies within the bounds of the readings: 0.7 × critical max + 0.3 × mean, or the overall max. |
| `Temperature.Window` | k8_fan_controller/temperature.py:24-28 | A bounded deque append gives min(`max_samples`, old length + 1) readings, and the new value is last. |
| `Temperature.WindowKeepsLatest` | k8_fan_controller/temperature.py:24-28 | The deque holds exactly the most recent readings in order: the tail of the old series followed by the new value, and the whole old series while there is room. |
| `Temperature.WindowSlides` | k8_fan_controller/temperature.py:24-28 | On a full deque, the oldest reading is dropped and the new one is appended. |
| `Temperature.UpdateWellFormed` | k8_fan_controller/temperature.py:16-36 | An update preserves the history invariant: the same sensors in both maps, non-empty series that fit the window, and stamps within the window. |
| `Temperature.UpdateReported` | k8_fan_controller/temperature.py:23-29 | A reported sensor is stamped with the new cycle and ends its series with the new reading. A series with room just grows by it. |
| `Temperature.UpdateUnreported` | k8_fan_controller/temperature.py:31-36 | An unreported sensor survives exactly when it reported within the window, and then is untouched. |
| `Temperature.UpdateWindowOne` | k8_fan_controller/temperature.py:16-36 | With a window of one, the history holds exactly the latest readings. |
| `Temperature.UpdateSteps` | k8_fan_controller/temperature.py:16-36 | The append, stamp and eviction passes together implement the update relation and keep the invariant. |
| `Temperature.TemperatureHistory.constructor` | k8_fan_controller/temperature.py:10-14 | The window is at least 1, and everything starts empty at cycle 0. |
| `Temperature.TemperatureHistory.Update` | k8_fan_controller/temperature.py:16-36 | The new state is the old one under the update relation. An empty update changes nothing. |
| `Temperature.TemperatureHistory.AppendAll` | k8_fan_controller/temperature.py:21-29 | Every reading joins its sensor's window, and each reported sensor is stamped. |
| `Temperature.TemperatureHistory.EvictStale` | k8_fan_controller/temperature.py:32-36 | Exactly the sensors not seen after the cutoff are dropped from both maps. |
| `Temperature.TemperatureHistory.Averaged` | k8_fan_controller/temperature.py:38-46 | One mean per non-empty series: each average times the series length is the series sum. |
| `Temperature.AveragesWithin` | k8_fan_controller/temperature.py:38-46 | The averages lie within the bounds of the stored readings. |
| `Controller.Failed` | k8_fan_controller/controller.py:111-117 | A failure adds one, and the daemon goes on while the count is under 3. |
| `Controller.CounterIsTrailingFailures` | k8_fan_controller/controller.py:102-181 | With the intended call, the counter is the number of sensor failures in a row at the end of the run. |
| `Controller.CycleStopsIff` | k8_fan_controller/controller.py:102-181 | With the intended call, a cycle stops the daemon exactly on a critical temperature or the third sensor failure in a row. |
| `Controller.CounterAsWritten` | k8_fan_controller/controller.py:129-181 | As written, a cycle that reaches the speed policy leaves the counter at one. |
| `Controller.CycleAsWrittenStopsIff` | k8_fan_controller/controller.py:102-181 | As written, a cycle also stops after two sensor failures when the cycle before them reached the speed policy. |
| `Controller.AsWrittenStopsAfterTwoFailures` | k8_fan_controller/controller.py:145 | After a policy cycle and two failed reads, the code as written stops and the intended code does not. |
| `Controller.DistinctRolesSound` | k8_fan_controller/controller.py:211-218 | The inferred roles are the distinct non-empty fan roles. |
| `Controller.DistinctRolesOrder` | k8_fan_controller/controller.py:211-218 | Inferred roles appear in order of first appearance. |
| `Controller.PolicyStep` | k8_fan_controller/controller.py:145 | One more role's policy call extends the per-role results and touches only that role's memory. |
| `Controller.AnyExceedsMinChange` | k8_fan_controller/controller.py:164 | True exactly when some role's target differs from its current speed (0 when unread) by at least `min_speed_change`. |
| `Controller.WritesSpeedsOnlyBigAndLate` | k8_fan_controller/controller.py:163-166 | Speeds are written only when some change is at least `min_speed_change` and `min_change_interval` has passed. All-small changes are never written. |
| `Controller.PostProcess` | k8_fan_controller/controller.py:147-149 | The post-processed targets cover the same roles and are within 0..100. |
| `Controller.FanController.constructor` | k8_fan_controller/controller.py:32-64 | Builds the subsystems from the configuration. The counter is 0 and no targets are remembered. |
| `Controller.FanController.RolesToControl` | k8_fan_controller/controller.py:206-218 | The configured roles when non-empty, otherwise the roles inferred from the fans. |
| `Controller.FanController.Failure` | k8_fan_controller/controller.py:111-116 | The failure handler counts a failure. On the third failure it restores the saved modes and stops. |
| `Controller.FanController.ReadTemperatures` | k8_fan_controller/controller.py:109-127 | Missing data or invalid readings go to the failure handler. Valid readings leave everything unchanged. |
| `Controller.FanController.Track` | k8_fan_controller/controller.py:130-134 | The history is updated. Each role's target temperature is taken from the averaged history. |
| `Controller.FanController.Assess` | k8_fan_controller/controller.py:129-143 | The counter is reset. A critical maximum restores the saved modes. Otherwise the per-role current speeds are read and nothing is written; none read means "no current speeds". |
| `Controller.FanController.ComputeTargets` | k8_fan_controller/controller.py:145 | Each role's speed comes from its own policy step, as intended. |
| `Controller.FanController.ApplyIfNeeded` | k8_fan_controller/controller.py:162-171 | Writes only a big and late enough change. Time and remembered targets move only on full success. |
| `Controller.FanController.Control` | k8_fan_controller/controller.py:145-171 | Policy, RPM read, post-processing and apply decision, in that order. |
| `Controller.FanController.Proceed` | k8_fan_controller/controller.py:129-172 | The success path up to its three outcomes: critical, no current speeds, and a policy cycle. |
| `Controller.FanController.RunCycle` | k8_fan_controller/controller.py:102-181 | One cycle with the intended policy call. The counter and the verdict follow `Cycle`. Sensor failures change nothing but the counter and, on the third one, the enable modes. The success path is as `Proceed` states. |
| `Controller.FanController.RunCycleAsWritten` | k8_fan_controller/controller.py:102-181 | One cycle as written. A cycle reaching the speed policy raises, so the counter ends at 1, the daemon goes on, and no speed is written. |
| `Text.ContainsIff` | k8_fan_controller/sensors.py:80 | The substring test holds exactly when the needle occurs at some position. |
| `Text.Before` | k8_fan_controller/sensors.py:139 | `split(':', 1)[0]`: the longest prefix without the separator. |
| `Text.BasenameOfJoin` | k8_fan_controller/sysfs_utils.py:24 | The base name of `dir/name` is `name`. |
| `Text.DirnameOfJoin` | k8_fan_controller/sysfs_utils.py:65 | The directory part of `dir/name` is `dir`. |
| `Text.Strip` | k8_fan_controller/sysfs_utils.py:13 | The stripped text is no longer than the input and neither starts nor ends with whitespace (Python's full whitespace set, Unicode spaces included). |
| `Text.StripCutsOnlySpace` | k8_fan_controller/sysfs_utils.py:13 | The stripped text is a contiguous slice of the input, and everything cut off on either side is whitespace. |
| `Text.ParseIntToString` | k8_fan_controller/fan_io.py:137 | A PWM value written as decimal text parses back to the same integer. |
| `StringOrder.SortStringsCorrect` | k8_fan_controller/sysfs_utils.py:71 | `sorted` gives an ordered permutation of its input. |
| `Values.Get` | k8_fan_controller/config.py:57 | A key lookup finds a value exactly when the key is present, and the value is the one stored under it. |
| `Values.GetDistinct` | k8_fan_controller/config.py:57 | In a dictionary with distinct keys, looking up any entry's key gives that entry's value. |
| `Values.AsNumber` | k8_fan_controller/sensors.py:90 | A value counts as a number exactly when it is an int, a float or a bool, as `isinstance(v, (int, float))` has it. |
| `Sysfs.Sysfs.RealpathIdempotent` | k8_fan_controller/sysfs_utils.py:52 | On a file system whose links are resolved, `realpath` of a real path is that path. |
| `Sysfs.Sysfs.Read` | k8_fan_controller/sysfs_utils.py:10-15 | A read succeeds exactly when the path exists, resolves to a file and is readable. |
| `Sysfs.Sysfs.Write` | k8_fan_controller/fan_io.py:76-77 | A write succeeds exactly when the real path is writable. Only then does it replace that file's contents. |

## Left out

- `SensorsReader.get_sensors_json` is out of scope: it runs the `sensors -j` subprocess and parses JSON. `RunCycle` takes its result as a parameter, where `None` stands for every failure.
- `ConfigManager.load` is out of scope: it reads and parses the TOML file. The constructor takes the parsed table.
- Logging, the advisory warning of `validate_temperatures` (sensors.py:121-128), and the warnings `validate` prints are not modelled. The paths that would warn are returned with the `Ok` result instead.
- The 30-second sleep in `handle_critical_temperature` is not modelled; it has no effect on state.
- The `run` loop, its sleeps and its final restore are not modelled. Neither are signal handling, `_signal_handler` and `emergency_shutdown`.
- `time.time()`: the clock reads at controller.py:165 and fan_io.py:142 are modelled as one `now` parameter per cycle.
- The `try`/`except` around the extraction loops (sensors.py:78-109) is modelled only for its one reachable case. A truthy top level that is not a dictionary makes `.items()` raise; the handler then returns the empty result, and `Extract` gives that result directly. On the values of `Values.Value`, one other step can raise, and the model does not capture it. `float()` of an `int` outside the float range (magnitude of 2^1024 or more, which `json.load` produces from a long integer literal) raises `OverflowError` at sensors.py:92. The handler then returns the readings recorded so far, while the model records the value as an exact real and carries on. With such an input Python can go on with a partial set of readings where the model sees the full set.
- Floating point is modelled as exact reals, and Python `int`s as unbounded integers.
- `Text.ParseInt` covers optional surrounding whitespace, an optional sign and ASCII digits. It does not cover `int()`'s acceptance of underscores and non-ASCII digits.
- File system errors are reduced to three kinds: a path that does not exist, an unreadable path, and an unwritable path. Symbolic links are a fixed map from a path to its fully resolved canonical path. The constructor requires that no link leads to another link and that no file or directory is also a link; `LinksResolved` states this, and `Write` keeps it.
- The dynamic configuration dictionary seen by the components other than `ConfigManager` is a typed `DaemonConfig`. A value of the wrong type in the table is not modelled there.
- `calculate_target_temperature` is not called by the controller. It is modelled as a ghost function with a bound lemma only.
- `Controller.FanController.RunCycleAsWritten`: does not state the history and policy state after the raise. It states the counter, the verdict and the absence of speed writes.

## Findings

| source | as written | input that shows it | evidently intended | confidence | as-written member | corrected member |
|---|---|---|---|---|---|---|
| k8_fan_controller/controller.py:145 | `run_cycle` calls `calculate_fan_speed` with the target temperature and the current speed, but without the role (policy.py:59 takes `role, target_temp, current_speed`). The call raises `TypeError`, so every cycle that reaches the policy is counted as a failure: no speed is ever written, and the counter is left at 1. | Valid readings below `critical_temp` and a readable PWM file, then two cycles with no sensor data: the daemon restores the enable modes and stops after two failures instead of three. | Pass the role: `calculate_fan_speed(r, target_temps_by_role[r], current_speeds.get(r, 0))`. | high, not executed | `Controller.FanController.RunCycleAsWritten`, `Controller.AsWrittenStopsAfterTwoFailures` | `Controller.FanController.RunCycle`, `Controller.CycleStopsIff` |
