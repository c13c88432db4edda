# CPU temperature controller: a Dafny model

This project models the core of an Android app that throttles CPU heat through
idle injection. The app has two parts:

- **KernelParameterIO** reads and writes kernel tunables (sysfs files) through a
  root shell. It is a lazily created singleton with an explicit `release`. Reads
  and writes share one field, `cmdReturn`, which holds the last line any command
  printed.
- **TemperatureControllerService** owns three fields: `enabled`,
  `maxTemperature` and `injectionProb`. On every alarm tick it reads the CPU
  temperature and applies an asymmetric control law. At or above the threshold,
  0 becomes 1 and a positive value doubles. Below the threshold, the value drops
  by one and stops at 0. It then calls `setInjectionProbability` with the new
  value. That method writes the field's current (old) value and adopts the new
  one only when the write reports success.

The model has four modules:

- `JavaLang` (`java_lang.dfy`) covers the Java details the code relies on:
  `null` as `Option`, escaping exceptions as `Result`/`Outcome`, and the 32-bit
  `int`. It also has `Integer.parseInt` and `Integer.toString` on ASCII decimal
  text, with a proved round trip.
- `KernelParameterIO` (`kernel_parameter_io.dfy`) models the RootTools library
  as an oracle. Each store call receives a `RootShell` value: whether root is
  available, whether access was given, and the lines the command printed before
  it exited (with an exit code) or threw. The pure functions `Captured`,
  `ReadRule` and `WriteRule` hold the result rules. The class `ParameterStore`
  holds the object's state: the shell handle, `cmdReturn`, and a ghost log of
  the requests handed to it. The class `Registry` holds the class-wide
  `instance` slot.
- `ControlLaw` (`control_law.dfy`) holds the tick's law, `NextProbability`. It
  also has `Trace`, the sequence of in-memory probabilities over a run of ticks,
  with lemmas about decay, doubling, failed writes and non-negativity.
- `TemperatureControllerService` (`temperature_controller_service.dfy`) holds
  the class `TemperatureController`. Its methods update the three fields step by
  step, and each method's `ensures` ties the new state to `ReadRule`,
  `WriteRule` and `Step`.

The code has three quirks, and the model keeps all of them.

- `setInjectionProbability` hands the store the field's old value
  (`Integer.toString(injectionProb)`), not its argument. It adopts the argument
  only when the store reports success. The ghost `requests` log shows this: each
  tick records `Write(prob path, IntToString(old(injectionProb)))`.
- `writeSysFs` decides success from whatever `cmdReturn` holds after the
  command. This happens even when root or access is missing, or the command
  threw. A `null` there throws NullPointerException. A write whose command
  prints nothing therefore reports on the previous read. `SilentWriteReportsLastRead`
  states this, and `SilentWriteAfterReadingHoldsProbability` draws the
  consequence for a tick: the temperature read leaves a reading other than "0",
  so the write is reported failed and the probability never moves.
- `readSysFs` without root returns the stale `cmdReturn`, not `null`.

In a few places the code does not do what a reader of its names would
expect, and the model follows the code in each case:

- Stopping the controller resets the probability but does not write "0" to the
  enable parameter.
- A read without root is not treated as unavailable.
- A write is not "false on failure": it reports the last captured line, or it
  throws.
- Starting writes the current `enabled` field, which `onStartCommand` has just
  set to true. So `start` never changes `enabled`.
- After `release`, nothing in the code stops further calls on the released
  object.

## Model

| member | source | states |
|---|---|---|
| JavaLang.ParseInt | src/edu/brown/cs/systems/cputemp/services/TemperatureControllerService.java:114 | `Integer.parseInt`: empty text, a bare sign, or any non-digit after the optional sign throws. Unsigned or `+`-signed digits give their decimal value, and `-`-signed digits its negation. A value outside the `int` range throws |
| JavaLang.NatToString | src/edu/brown/cs/systems/cputemp/services/TemperatureControllerService.java:129 | The decimal text of a natural number is non-empty, all digits, denotes the number, and has a leading `0` only when it is the single digit `0` |
| JavaLang.IntToString | src/edu/brown/cs/systems/cputemp/services/TemperatureControllerService.java:129 | `Integer.toString`: for every `int` value, parsing the text back gives the value (round trip) |
| JavaLang.Wrap32 | src/edu/brown/cs/systems/cputemp/services/TemperatureControllerService.java:225 | Java `int` wrap-around: the result is in range, congruent to the input modulo 2^32, and equal to it when no overflow occurs |
| KernelParameterIO.Captured | src/edu/brown/cs/systems/cputemp/utils/KernelParameterIO.java:54-59 | The output callback leaves the last printed line in `cmdReturn`; a command that prints nothing leaves the old value |
| KernelParameterIO.ReadRule | src/edu/brown/cs/systems/cputemp/utils/KernelParameterIO.java:51-81 | `readSysFs` returns null or the new `cmdReturn`. With root but no access it returns null. With root and access it captures the output and returns a value exactly when the command exited 0 and `cmdReturn` is non-null afterwards: the last line this command printed, or the previous value if it printed nothing. Without root it returns the stale `cmdReturn` |
| KernelParameterIO.WriteRule | src/edu/brown/cs/systems/cputemp/utils/KernelParameterIO.java:83-110 | `writeSysFs` reports true exactly when `cmdReturn` is "0" after the command. It throws NullPointerException exactly when `cmdReturn` is null. Output is captured only with root and access |
| KernelParameterIO.WriteIgnoresExitStatus | src/edu/brown/cs/systems/cputemp/utils/KernelParameterIO.java:94-109 | Two root writes that print the same lines end identically, whatever their exit code or exception |
| KernelParameterIO.SilentWriteReportsLastRead | src/edu/brown/cs/systems/cputemp/utils/KernelParameterIO.java:80-109 | After a read that returned `v`, a write whose command prints nothing reports `v == "0"` and leaves `v` in `cmdReturn` |
| KernelParameterIO.ParameterStore.constructor | src/edu/brown/cs/systems/cputemp/utils/KernelParameterIO.java:18-25 | A new object records whether a shell was obtained, and its `cmdReturn` is null |
| KernelParameterIO.ParameterStore.ReadSysFs | src/edu/brown/cs/systems/cputemp/utils/KernelParameterIO.java:51-81 | Returns the result of `ReadRule` and leaves `ReadRule`'s `cmdReturn`; logs the read of `path` |
| KernelParameterIO.ParameterStore.WriteSysFs | src/edu/brown/cs/systems/cputemp/utils/KernelParameterIO.java:83-110 | Returns the result of `WriteRule` (including the NullPointerException) and leaves its `cmdReturn`; logs the path and value handed to it |
| KernelParameterIO.ParameterStore.Release | src/edu/brown/cs/systems/cputemp/utils/KernelParameterIO.java:38-49 | After `release` the singleton slot is empty |
| KernelParameterIO.Registry.GetInstance | src/edu/brown/cs/systems/cputemp/utils/KernelParameterIO.java:27-36 | A cached instance is returned unchanged. With nothing cached, a new object is built: it is cached and returned when it obtained a shell, and otherwise null is returned and nothing is cached. Only objects with a shell are ever cached |
| KernelParameterIO.ReacquireAfterRelease | src/edu/brown/cs/systems/cputemp/utils/KernelParameterIO.java:27-49 | After `release`, the next `getInstance` returns a freshly built object (never the released one), or null when no shell can be obtained |
| ControlLaw.NextProbability | src/edu/brown/cs/systems/cputemp/services/TemperatureControllerService.java:221-229 | At or above the threshold: 0 goes to 1 and a positive `p` to `2p`. Below it: `max(p - 1, 0)`. A non-negative input gives a non-negative output; a hot tick strictly raises it and a cool tick never raises it |
| ControlLaw.JavaNextProbability | src/edu/brown/cs/systems/cputemp/services/TemperatureControllerService.java:222-229 | The law as computed on a Java `int`. It stays in `int` range and agrees with `NextProbability` whenever `2p` does not overflow |
| ControlLaw.Trace | src/edu/brown/cs/systems/cputemp/services/TemperatureControllerService.java:221-232 | The probabilities after each tick of a run. Each one is the previous one, updated by the law only when the write was reported done |
| ControlLaw.TraceNonNegative | src/edu/brown/cs/systems/cputemp/services/TemperatureControllerService.java:127 | A run that starts non-negative stays non-negative (the field invariant the assertion checks) |
| ControlLaw.FailedWritesKeepProbability | src/edu/brown/cs/systems/cputemp/services/TemperatureControllerService.java:128-135 | If no write goes through, the probability never moves over the whole run |
| ControlLaw.CoolTicksDecay | src/edu/brown/cs/systems/cputemp/services/TemperatureControllerService.java:226-229 | After `i + 1` cool ticks with writes done, the probability is `max(p - (i + 1), 0)` |
| ControlLaw.HotTicksDouble | src/edu/brown/cs/systems/cputemp/services/TemperatureControllerService.java:224-225 | After `i + 1` hot ticks with writes done, a positive probability is `p * 2^(i + 1)` |
| ControlLaw.HotTicksFromZero | src/edu/brown/cs/systems/cputemp/services/TemperatureControllerService.java:224-225 | From 0, hot ticks give 1, 2, 4, ..., `2^i` |
| ControlLaw.AllWritesDoneScenario | src/edu/brown/cs/systems/cputemp/services/TemperatureControllerService.java:221-232 | Threshold 60, start 0, samples 70, 70, 59, 59: probabilities 1, 2, 1, 0 |
| ControlLaw.SecondWriteFailsScenario | src/edu/brown/cs/systems/cputemp/services/TemperatureControllerService.java:126-136 | The same run with the second write failing: 1, 1, 0, 0 (ramp-down continues from the unchanged value) |
| ControlLaw.JavaDoublingTurnsNegative | src/edu/brown/cs/systems/cputemp/services/TemperatureControllerService.java:225 | On a Java `int`, a hot tick at 2^30 yields -2^31; the unbounded law yields 2^31 |
| ControlLaw.OverflowIsReachable | src/edu/brown/cs/systems/cputemp/services/TemperatureControllerService.java:222-231 | 31 hot ticks from 0, writes done, reach 2^30, so the 32nd hot tick overflows on a Java `int` |
| TemperatureControllerService.ReadInt | src/edu/brown/cs/systems/cputemp/services/TemperatureControllerService.java:112-124 | Parse-or-default reading. An unreadable parameter gives the default. Readable text throws NumberFormatException exactly when `Integer.parseInt` rejects it, and otherwise gives the parsed value. A parameter holding the text of an `int` `n` gives `n` |
| TemperatureControllerService.UnreadableSensorCools | src/edu/brown/cs/systems/cputemp/services/TemperatureControllerService.java:112-115 | An unreadable sensor reads as -1, and with any threshold of at least 0 that takes the ramp-down branch |
| TemperatureControllerService.SilentWriteAfterReadingHoldsProbability | src/edu/brown/cs/systems/cputemp/services/TemperatureControllerService.java:187-191 | When the tick's temperature read returned something other than "0" and the write prints nothing, the write reports false and the probability stays put |
| TemperatureControllerService.ZeroReadingTickIsHotAndWritten | src/edu/brown/cs/systems/cputemp/services/TemperatureControllerService.java:187-191 | A temperature read returning "0" followed by a write that prints nothing gives a hot tick at any threshold of 0 or less, and the write reports true. So the store's own rules produce the all-hot, all-written run that doubles the probability |
| TemperatureControllerService.TemperatureController.constructor | src/edu/brown/cs/systems/cputemp/services/TemperatureControllerService.java:47-65 | `onCreate` takes the cached store or builds one (null when no shell can be obtained). With a store, `enabled` is whether the enable parameter reads "1"; without one it stays false |
| TemperatureControllerService.TemperatureController.OnDestroy | src/edu/brown/cs/systems/cputemp/services/TemperatureControllerService.java:68-75 | With a store, destroying the service empties the singleton slot |
| TemperatureControllerService.TemperatureController.IsIdleInjecting | src/edu/brown/cs/systems/cputemp/services/TemperatureControllerService.java:100-103 | True exactly when the read of the enable parameter returns "1" |
| TemperatureControllerService.TemperatureController.SwitchIdleInjection | src/edu/brown/cs/systems/cputemp/services/TemperatureControllerService.java:105-110 | Writes "1" or "0" and returns the write's result. `enabled` becomes the argument only when the write reports true |
| TemperatureControllerService.TemperatureController.GetCurrentTemperature | src/edu/brown/cs/systems/cputemp/services/TemperatureControllerService.java:112-115 | The parsed sensor reading, -1 when the read fails, NumberFormatException on malformed text |
| TemperatureControllerService.TemperatureController.GetInjectionProbability | src/edu/brown/cs/systems/cputemp/services/TemperatureControllerService.java:121-124 | The parsed probability, 0 when the read fails, NumberFormatException on malformed text |
| TemperatureControllerService.TemperatureController.SetInjectionProbability | src/edu/brown/cs/systems/cputemp/services/TemperatureControllerService.java:126-136 | Hands the store the field's value before the call. Adopts the argument only when the write reports true, so on failure the field is unchanged. A null `cmdReturn` makes it throw |
| TemperatureControllerService.TemperatureController.UpdateControl | src/edu/brown/cs/systems/cputemp/services/TemperatureControllerService.java:221-232 | The new probability is `Step` of the old one: the control law when the write reports true, and otherwise unchanged. It keeps the field non-negative |
| TemperatureControllerService.TemperatureController.OnReceive | src/edu/brown/cs/systems/cputemp/services/TemperatureControllerService.java:187-192 | A tick reads the temperature, then updates the control. Malformed text aborts it before any write and leaves the probability unchanged |
| TemperatureControllerService.TemperatureController.StartTemperatureController | src/edu/brown/cs/systems/cputemp/services/TemperatureControllerService.java:144-166 | Writes the current `enabled` flag (so `enabled` never changes), then sets the threshold. If the write throws, the threshold is left as it was |
| TemperatureControllerService.TemperatureController.StopTemperatureController | src/edu/brown/cs/systems/cputemp/services/TemperatureControllerService.java:168-181 | Sets the probability to 0 whatever it was and touches nothing else, so stopping twice leaves the same state as stopping once |
| TemperatureControllerService.TemperatureController.OnStartCommand | src/edu/brown/cs/systems/cputemp/services/TemperatureControllerService.java:78-98 | A control command first overwrites `enabled` and `maxTemperature` (default 60). Without a store it returns not-sticky. Otherwise it starts (writing "1") when enabled and stops (probability 0) when not. Other actions change nothing |
| TemperatureControllerService.StartThenStop | src/edu/brown/cs/systems/cputemp/services/TemperatureControllerService.java:80-92 | A start command with threshold 60, followed at once by a stop command, leaves the controller disabled with probability 0 and threshold 60 |

## Findings

| source | as written | input that shows it | evidently intended | confidence | as-written member | corrected member |
|---|---|---|---|---|---|---|
| src/edu/brown/cs/systems/cputemp/services/TemperatureControllerService.java:225 | `prob * INJECTION_INCREASE_STEP` is computed on a 32-bit `int` and wraps around | `injectionProb = 1073741824` (2^30, reached after 31 hot ticks from 0 with every write done; with a threshold of 0 or less, a sensor reading "0" and silent writes give exactly such ticks) and `cpuTemp >= maxTemperature`: the next probability is -2147483648 | The probability stays non-negative, as the assertion on line 127 expects | not executed; high for the arithmetic, though the kernel may reject such values before this state is reached | ControlLaw.JavaNextProbability (shown by ControlLaw.JavaDoublingTurnsNegative, ControlLaw.OverflowIsReachable and TemperatureControllerService.ZeroReadingTickIsHotAndWritten) | ControlLaw.NextProbability (non-negativity proved in ControlLaw.TraceNonNegative and kept by TemperatureControllerService.TemperatureController.UpdateControl) |

## Left out

- The Android service lifecycle beyond its effect on fields: `onBind`, `stopSelf`, the Toasts and the log calls.
- AlarmManager scheduling (`sender`, `setRepeating`, `cancel`) and `taskInterval`. A tick is a direct call of `OnReceive`.
- `getBatteryTemperature` and `updateInterface`. They are a host battery query and a UI broadcast. The battery temperature passed to `updateControl` is never used, so the model drops that parameter.
- The SharedPreferences writes in start and stop. They are persistence I/O.
- RootTools: `getShell`, `isRootAvailable`, `isAccessGiven`, the `cat`/`echo` command strings, `waitForFinish` and `shell.close`. These are a foreign library, and each call's answers are oracle inputs instead.
- `KernelParameterIO.ParameterStore.Release`: closing the shell is not modelled, so the model does not say whether later commands on the released object fail. That depends on the oracle's answers.
- `getMaxTemperature` is a plain getter. In `onCreate` it assigns the field to itself, so the constructor leaves the field at its default.
- `intent.getAction()` returning null, and the regular-expression match of the action name: `OnStartCommand` takes the match's outcome as a boolean.
- `JavaLang.ParseInt`: `Integer.parseInt` also accepts non-ASCII Unicode digits; only ASCII digits are modelled.
- Concurrency: the code has none, and ticks are sequential calls.
- MainActivity (the UI) is not part of this model.
- `TemperatureControllerService.TemperatureController.UpdateControl` computes the doubling on mathematical integers, not on a 32-bit `int`. The as-written arithmetic is `ControlLaw.JavaNextProbability` (see Findings). `maxTemperature` and the temperatures are likewise unbounded integers.
