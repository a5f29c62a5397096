/** The hard safety rule that overrides the control policy. */
module Safety {
  import opened Config
  import opened FanIO
  import Sysfs

  class SafetyManager {
    const criticalTemp: real

    constructor (config: DaemonConfig)
      ensures criticalTemp == config.criticalTemp
    {
      criticalTemp := config.criticalTemp;
    }

    /** `handle_critical_temperature`: at or above the critical temperature, hand every fan
        back to its saved (or automatic) mode, once, and report it; below it, do nothing. */
    method HandleCriticalTemperature(maxTemp: real, fanIO: FanIO, sys: Sysfs.Sysfs) returns (critical: bool)
      modifies sys`files, fanIO`restoreCalls
      ensures critical <==> maxTemp >= criticalTemp
      ensures critical ==> sys.files == ApplyWrites(sys, old(sys.files), RestoreWrites(fanIO.fans, fanIO.originalPwmMode))
      ensures fanIO.restoreCalls == old(fanIO.restoreCalls) + (if critical then 1 else 0)
      ensures !critical ==> sys.files == old(sys.files)
    {
      if maxTemp >= criticalTemp {
        fanIO.RestoreAutomaticMode(sys);
        return true;
      }
      return false;
    }
  }
}
