/**
 * TemperatureControllerService: the controller that owns the enabled flag,
 * the temperature threshold and the in-memory injection probability, and
 * drives them through a KernelParameterIO store.
 *
 * Each store call takes the root library's answers for that call as a
 * `RootShell` parameter. A tick is a plain method call; the alarm that
 * fires it, the battery reading and the UI broadcast are not modelled.
 */
module TemperatureControllerService {
  import opened JavaLang
  import opened KernelParameterIO
  import opened ControlLaw

  const SYSFS_ENABLE_PATH: string := "/sys/devices/cpu/power/cpuidle_injection_status"
  const SYSFS_INJECTION_PROB_PATH: string := "/sys/devices/cpu/power/cpuidle_injection_prob"
  const SYSFS_CURRENT_TEMP_PATH: string := "/sys/devices/platform/omap/omap_temp_sensor.0/temperature"

  const DEFAULT_TEMPERATURE: int := 60

  /** What `onStartCommand` asks of the host: keep the service alive, or not. */
  datatype StartMode = Sticky | NotSticky

  /** `isIdleInjecting`'s reading of the enable parameter: on exactly when it reads "1". */
  predicate ReadsOn(ans: Option<string>) {
    ans == Some("1")
  }

  /**
   * A parse-or-default reader: an unreadable parameter gives `unreadable`,
   * a readable one is parsed and a malformed one throws NumberFormatException.
   */
  function ReadInt(ans: Option<string>, unreadable: int): (r: Result<int>)
    ensures ans == None ==> r == Ok(unreadable)
    ensures ans.Some? && r.Ok? ==> InInt32(r.value)
    ensures r.Err? ==> ans.Some? && r == Err(NumberFormat)
    ensures forall n | InInt32(n) :: ans == Some(IntToString(n)) ==> r == Ok(n)
    ensures ans.Some? ==>
      (r.Err? <==> ParseInt(ans.value) == None) && (r.Ok? ==> ParseInt(ans.value) == Some(r.value))
  {
    match ans
    case None => Ok(unreadable)
    case Some(text) =>
      match ParseInt(text)
      case None => Err(NumberFormat)
      case Some(n) => Ok(n)
  }

  /** `getCurrentTemperature`'s reading: -1 when the sensor cannot be read. */
  function TemperatureOf(ans: Option<string>): Result<int> {
    ReadInt(ans, -1)
  }

  /** `getInjectionProbability`'s reading: 0 when the parameter cannot be read. */
  function ProbabilityOf(ans: Option<string>): Result<int> {
    ReadInt(ans, 0)
  }

  /** With any threshold of 0 or more, an unreadable sensor takes the ramp-down branch. */
  lemma UnreadableSensorCools(prob: int, maxTemperature: int)
    requires prob >= 0 && maxTemperature >= 0
    ensures TemperatureOf(None) == Ok(-1)
    ensures !IsHot(TemperatureOf(None).value, maxTemperature)
    ensures NextProbability(prob, TemperatureOf(None).value, maxTemperature) == Max(prob - 1, 0)
  {
  }

  /**
   * When the tick's temperature read printed a reading other than "0" and
   * the write command prints nothing, the write is reported as failed and
   * the in-memory probability stays where it was.
   */
  lemma SilentWriteAfterReadingHoldsProbability(
    cmdReturn: Option<string>, readShell: RootShell, writeShell: RootShell,
    reading: string, prob: int, cpuTemp: int, maxTemperature: int)
    requires ReadRule(cmdReturn, readShell).result == Some(reading) && reading != "0"
    requires writeShell.run.output == []
    ensures var w := WriteRule(ReadRule(cmdReturn, readShell).cmdReturn, writeShell);
      w.result == Ok(false) &&
      Step(prob, Tick(cpuTemp, w.result == Ok(true)), maxTemperature) == prob
  {
    SilentWriteReportsLastRead(cmdReturn, readShell, writeShell, reading);
  }

  /**
   * When the temperature read returns "0" and the write command prints
   * nothing, the tick is hot at any threshold of 0 or less and its write is
   * reported done: every such tick is a `Tick(0, true)`, the run that makes
   * the probability double on each tick.
   */
  lemma ZeroReadingTickIsHotAndWritten(
    cmdReturn: Option<string>, readShell: RootShell, writeShell: RootShell, maxTemperature: int)
    requires ReadRule(cmdReturn, readShell).result == Some("0")
    requires writeShell.run.output == []
    requires maxTemperature <= 0
    ensures TemperatureOf(Some("0")) == Ok(0) && IsHot(0, maxTemperature)
    ensures WriteRule(ReadRule(cmdReturn, readShell).cmdReturn, writeShell).result == Ok(true)
  {
    SilentWriteReportsLastRead(cmdReturn, readShell, writeShell, "0");
    assert DigitsValue("0") == 0 by {
      assert "0"[..0] == [];
    }
  }

  class TemperatureController {
    var enabled: bool
    var maxTemperature: int
    var injectionProb: int
    /** The store; `null` when no root shell could be obtained. */
    var kernelIO: ParameterStore?

    /** What the assertion in `setInjectionProbability` expects of the field. */
    ghost predicate Valid()
      reads this
    {
      injectionProb >= 0
    }

    /** `onCreate`: acquire the store and, if there is one, read whether injection is on. */
    constructor (registry: Registry, shellObtained: bool, statusShell: RootShell)
      requires registry.Valid()
      modifies registry, registry.instance
      ensures Valid() && registry.Valid()
      ensures injectionProb == DEFAULT_INJECTION_PROBABILITY && maxTemperature == DEFAULT_TEMPERATURE
      ensures kernelIO == registry.instance
      ensures old(registry.instance) != null ==> kernelIO == old(registry.instance)
      ensures old(registry.instance) == null ==> (kernelIO == null <==> !shellObtained)
      ensures kernelIO == null ==> !enabled
      ensures kernelIO != null ==>
        var before := if old(registry.instance) != null then old(registry.instance.cmdReturn) else None;
        var s := ReadRule(before, statusShell);
        enabled == ReadsOn(s.result) && kernelIO.cmdReturn == s.cmdReturn
    {
      var store := registry.GetInstance(shellObtained);
      kernelIO := store;
      enabled := false;
      maxTemperature := DEFAULT_TEMPERATURE;
      injectionProb := DEFAULT_INJECTION_PROBABILITY;
      new;
      if kernelIO != null {
        enabled := IsIdleInjecting(statusShell);
      }
    }

    /** `onDestroy`: release the store, emptying the singleton slot. */
    method OnDestroy(registry: Registry)
      modifies registry
      ensures kernelIO != null ==> registry.instance == null
      ensures kernelIO == null ==> registry.instance == old(registry.instance)
    {
      if kernelIO != null {
        kernelIO.Release(registry);
      }
    }

    method IsIdleInjecting(shell: RootShell) returns (on: bool)
      requires kernelIO != null
      modifies kernelIO`cmdReturn, kernelIO`requests
      ensures var s := ReadRule(old(kernelIO.cmdReturn), shell);
        on == ReadsOn(s.result) && kernelIO.cmdReturn == s.cmdReturn
      ensures kernelIO.requests == old(kernelIO.requests) + [Read(SYSFS_ENABLE_PATH)]
    {
      var ans := kernelIO.ReadSysFs(SYSFS_ENABLE_PATH, shell);
      on := ans != None && ans.value == "1";
    }

    method SwitchIdleInjection(onOff: bool, shell: RootShell) returns (r: Result<bool>)
      requires kernelIO != null
      modifies this`enabled, kernelIO`cmdReturn, kernelIO`requests
      ensures var w := WriteRule(old(kernelIO.cmdReturn), shell);
        r == w.result && kernelIO.cmdReturn == w.cmdReturn
      ensures enabled == if r == Ok(true) then onOff else old(enabled)
      ensures kernelIO.requests == old(kernelIO.requests) + [Write(SYSFS_ENABLE_PATH, if onOff then "1" else "0")]
    {
      r := kernelIO.WriteSysFs(SYSFS_ENABLE_PATH, if onOff then "1" else "0", shell);
      if r == Ok(true) {
        enabled := onOff;
      }
    }

    method GetCurrentTemperature(shell: RootShell) returns (t: Result<int>)
      requires kernelIO != null
      modifies kernelIO`cmdReturn, kernelIO`requests
      ensures var s := ReadRule(old(kernelIO.cmdReturn), shell);
        t == TemperatureOf(s.result) && kernelIO.cmdReturn == s.cmdReturn
      ensures kernelIO.requests == old(kernelIO.requests) + [Read(SYSFS_CURRENT_TEMP_PATH)]
    {
      var ans := kernelIO.ReadSysFs(SYSFS_CURRENT_TEMP_PATH, shell);
      t := TemperatureOf(ans);
    }

    method GetInjectionProbability(shell: RootShell) returns (p: Result<int>)
      requires kernelIO != null
      modifies kernelIO`cmdReturn, kernelIO`requests
      ensures var s := ReadRule(old(kernelIO.cmdReturn), shell);
        p == ProbabilityOf(s.result) && kernelIO.cmdReturn == s.cmdReturn
      ensures kernelIO.requests == old(kernelIO.requests) + [Read(SYSFS_INJECTION_PROB_PATH)]
    {
      var ans := kernelIO.ReadSysFs(SYSFS_INJECTION_PROB_PATH, shell);
      p := ProbabilityOf(ans);
    }

    /**
     * Hands the store the field's CURRENT value (not `injectProb`), and
     * adopts `injectProb` only when the store reports success.
     */
    method SetInjectionProbability(injectProb: int, shell: RootShell) returns (o: Outcome)
      requires kernelIO != null && Valid()
      modifies this`injectionProb, kernelIO`cmdReturn, kernelIO`requests
      ensures injectProb >= 0 ==> Valid()
      ensures var w := WriteRule(old(kernelIO.cmdReturn), shell);
        kernelIO.cmdReturn == w.cmdReturn &&
        injectionProb == (if w.result == Ok(true) then injectProb else old(injectionProb)) &&
        o == (if w.result.Err? then Crashed(w.result.fault) else Completed)
      ensures kernelIO.requests == old(kernelIO.requests) + [Write(SYSFS_INJECTION_PROB_PATH, IntToString(old(injectionProb)))]
    {
      var written := kernelIO.WriteSysFs(SYSFS_INJECTION_PROB_PATH, IntToString(injectionProb), shell);
      if written.Err? {
        return Crashed(written.fault);
      }
      if written.value {
        injectionProb := injectProb;
      }
      o := Completed;
    }

    /**
     * `updateControl`: one step of the control law, handed to
     * `setInjectionProbability`, which writes the field's old value and
     * adopts the new one only when the write reports success.
     */
    method UpdateControl(cpuTemp: int, shell: RootShell) returns (o: Outcome)
      requires kernelIO != null && Valid()
      modifies this`injectionProb, kernelIO`cmdReturn, kernelIO`requests
      ensures Valid()
      ensures var w := WriteRule(old(kernelIO.cmdReturn), shell);
        kernelIO.cmdReturn == w.cmdReturn &&
        injectionProb == Step(old(injectionProb), Tick(cpuTemp, w.result == Ok(true)), maxTemperature) &&
        o == (if w.result.Err? then Crashed(w.result.fault) else Completed)
      ensures kernelIO.requests == old(kernelIO.requests) + [Write(SYSFS_INJECTION_PROB_PATH, IntToString(old(injectionProb)))]
    {
      var prob := injectionProb;
      if cpuTemp >= maxTemperature {
        prob := if prob > 0 then prob * INJECTION_INCREASE_STEP else 1;
      } else {
        prob := if prob > 0 then prob - INJECTION_DECREASE_STEP else DEFAULT_INJECTION_PROBABILITY;
      }
      o := SetInjectionProbability(prob, shell);
    }

    /**
     * One alarm tick: read the CPU temperature, then update the control.
     * A malformed reading throws before anything is written.
     */
    method OnReceive(tempShell: RootShell, writeShell: RootShell) returns (o: Outcome)
      requires kernelIO != null && Valid()
      modifies this`injectionProb, kernelIO`cmdReturn, kernelIO`requests
      ensures Valid()
      ensures var rd := ReadRule(old(kernelIO.cmdReturn), tempShell);
        var t := TemperatureOf(rd.result);
        var w := WriteRule(rd.cmdReturn, writeShell);
        if t.Err? then
          o == Crashed(NumberFormat) && injectionProb == old(injectionProb) && kernelIO.cmdReturn == rd.cmdReturn &&
          kernelIO.requests == old(kernelIO.requests) + [Read(SYSFS_CURRENT_TEMP_PATH)]
        else
          injectionProb == Step(old(injectionProb), Tick(t.value, w.result == Ok(true)), maxTemperature) &&
          kernelIO.cmdReturn == w.cmdReturn &&
          o == (if w.result.Err? then Crashed(w.result.fault) else Completed) &&
          kernelIO.requests == old(kernelIO.requests) +
            [Read(SYSFS_CURRENT_TEMP_PATH), Write(SYSFS_INJECTION_PROB_PATH, IntToString(old(injectionProb)))]
    {
      var cpuTemp := GetCurrentTemperature(tempShell);
      if cpuTemp.Err? {
        return Crashed(cpuTemp.fault);
      }
      o := UpdateControl(cpuTemp.value, writeShell);
    }

    /**
     * Writes the current `enabled` flag to the enable parameter, then sets
     * the threshold; a write that throws leaves the threshold as it was.
     */
    method StartTemperatureController(tempThreshold: int, shell: RootShell) returns (o: Outcome)
      requires kernelIO != null
      modifies this`enabled, this`maxTemperature, kernelIO`cmdReturn, kernelIO`requests
      ensures enabled == old(enabled)
      ensures var w := WriteRule(old(kernelIO.cmdReturn), shell);
        kernelIO.cmdReturn == w.cmdReturn &&
        (w.result.Err? ==> o == Crashed(NullPointer) && maxTemperature == old(maxTemperature)) &&
        (w.result.Ok? ==> o == Completed && maxTemperature == tempThreshold)
      ensures kernelIO.requests == old(kernelIO.requests) + [Write(SYSFS_ENABLE_PATH, if old(enabled) then "1" else "0")]
    {
      var switched := SwitchIdleInjection(enabled, shell);
      if switched.Err? {
        return Crashed(switched.fault);
      }
      maxTemperature := tempThreshold;
      o := Completed;
    }

    /** Resets the probability to its default; the store is not touched. */
    method StopTemperatureController()
      modifies this`injectionProb
      ensures Valid()
      ensures injectionProb == DEFAULT_INJECTION_PROBABILITY
    {
      injectionProb := DEFAULT_INJECTION_PROBABILITY;
    }

    /**
     * `onStartCommand` for a control command carrying `enabledExtra` and,
     * optionally, `maxCpuTempExtra`; other actions are ignored.
     */
    method OnStartCommand(isControlAction: bool, enabledExtra: bool, maxCpuTempExtra: Option<int>, shell: RootShell)
      returns (r: Result<StartMode>)
      requires Valid()
      modifies this`enabled, this`maxTemperature, this`injectionProb, kernelIO
      ensures Valid()
      ensures kernelIO != null ==> kernelIO.hasShell == old(kernelIO.hasShell)
      ensures !isControlAction ==>
        r == Ok(Sticky) && enabled == old(enabled) && maxTemperature == old(maxTemperature) &&
        injectionProb == old(injectionProb) &&
        (kernelIO != null ==> kernelIO.cmdReturn == old(kernelIO.cmdReturn) && kernelIO.requests == old(kernelIO.requests))
      ensures isControlAction ==>
        enabled == enabledExtra && maxTemperature == maxCpuTempExtra.GetOr(DEFAULT_TEMPERATURE)
      ensures isControlAction && kernelIO == null ==>
        r == Ok(NotSticky) && injectionProb == old(injectionProb)
      ensures isControlAction && kernelIO != null && enabledExtra ==>
        var w := WriteRule(old(kernelIO.cmdReturn), shell);
        injectionProb == old(injectionProb) && kernelIO.cmdReturn == w.cmdReturn &&
        kernelIO.requests == old(kernelIO.requests) + [Write(SYSFS_ENABLE_PATH, "1")] &&
        r == (if w.result.Err? then Err(NullPointer) else Ok(Sticky))
      ensures isControlAction && kernelIO != null && !enabledExtra ==>
        r == Ok(Sticky) && injectionProb == DEFAULT_INJECTION_PROBABILITY &&
        kernelIO.cmdReturn == old(kernelIO.cmdReturn) && kernelIO.requests == old(kernelIO.requests)
    {
      if isControlAction {
        enabled := enabledExtra;
        maxTemperature := maxCpuTempExtra.GetOr(DEFAULT_TEMPERATURE);
        if kernelIO == null {
          return Ok(NotSticky);
        }
        if enabled {
          var started := StartTemperatureController(maxTemperature, shell);
          if started.Crashed? {
            return Err(started.fault);
          }
        } else {
          StopTemperatureController();
        }
      }
      r := Ok(Sticky);
    }
  }

  /**
   * A start command with threshold 60 followed at once by a stop command:
   * the controller ends disabled, with probability 0 and threshold 60.
   */
  method StartThenStop(controller: TemperatureController, shell: RootShell) returns (r: Result<StartMode>)
    requires controller.kernelIO != null && controller.Valid()
    modifies controller, controller.kernelIO
    ensures !controller.enabled && controller.injectionProb == DEFAULT_INJECTION_PROBABILITY
    ensures controller.maxTemperature == DEFAULT_TEMPERATURE
  {
    r := controller.OnStartCommand(true, true, Some(60), shell);
    r := controller.OnStartCommand(true, false, None, shell);
  }
}
