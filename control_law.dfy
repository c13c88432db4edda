/**
 * The control law of the temperature controller's tick (`updateControl`)
 * and the sequence of injection probabilities a run of ticks produces.
 *
 * The law is stated on mathematical integers. The Java code computes
 * `prob * 2` on a 32-bit `int`; `JavaNextProbability` keeps that
 * arithmetic, and the lemmas at the end of this module show where the two
 * part ways.
 */
module ControlLaw {
  import opened JavaLang

  const DEFAULT_INJECTION_PROBABILITY: int := 0
  const INJECTION_INCREASE_STEP: int := 2
  const INJECTION_DECREASE_STEP: int := 1

  /** The threshold itself already counts as too hot. */
  predicate IsHot(cpuTemp: int, maxTemperature: int) {
    cpuTemp >= maxTemperature
  }

  function Max(a: int, b: int): int {
    if a >= b then a else b
  }

  /**
   * The next injection probability: exponential ramp-up once the CPU is at
   * or above the threshold, linear ramp-down by one below it, floored at 0.
   */
  function NextProbability(prob: int, cpuTemp: int, maxTemperature: int): (r: int)
    ensures IsHot(cpuTemp, maxTemperature) && prob >= 0 ==> r == if prob == 0 then 1 else 2 * prob
    ensures !IsHot(cpuTemp, maxTemperature) && prob >= 0 ==> r == Max(prob - 1, 0)
    ensures prob >= 0 ==> r >= 0
    ensures IsHot(cpuTemp, maxTemperature) ==> r >= 1 && (prob >= 0 ==> r > prob)
    ensures !IsHot(cpuTemp, maxTemperature) ==> r <= Max(prob, 0)
  {
    if IsHot(cpuTemp, maxTemperature) then
      (if prob > 0 then prob * INJECTION_INCREASE_STEP else 1)
    else
      (if prob > 0 then prob - INJECTION_DECREASE_STEP else DEFAULT_INJECTION_PROBABILITY)
  }

  /** The same law with the doubling carried out on a Java `int`, as the source computes it. */
  function JavaNextProbability(prob: int, cpuTemp: int, maxTemperature: int): (r: int)
    requires InInt32(prob)
    ensures InInt32(r)
    ensures prob * INJECTION_INCREASE_STEP <= INT_MAX ==> r == NextProbability(prob, cpuTemp, maxTemperature)
  {
    if IsHot(cpuTemp, maxTemperature) then
      (if prob > 0 then Wrap32(prob * INJECTION_INCREASE_STEP) else 1)
    else
      (if prob > 0 then prob - INJECTION_DECREASE_STEP else DEFAULT_INJECTION_PROBABILITY)
  }

  /** One tick as the law sees it: the CPU temperature used, and whether the store reported the write as done. */
  datatype Tick = Tick(cpuTemp: int, written: bool)

  /** The in-memory probability after one tick: it moves only when the write was reported done. */
  function Step(prob: int, tick: Tick, maxTemperature: int): int {
    if tick.written then NextProbability(prob, tick.cpuTemp, maxTemperature) else prob
  }

  /** The in-memory probability after each tick of a run that starts at `prob`. */
  function Trace(prob: int, ticks: seq<Tick>, maxTemperature: int): (ps: seq<int>)
    ensures |ps| == |ticks|
    ensures ticks != [] ==> ps[0] == Step(prob, ticks[0], maxTemperature)
    ensures forall i | 0 < i < |ticks| :: ps[i] == Step(ps[i - 1], ticks[i], maxTemperature)
    decreases ticks
  {
    if ticks == [] then []
    else
      var p := Step(prob, ticks[0], maxTemperature);
      [p] + Trace(p, ticks[1..], maxTemperature)
  }

  function Pow2(n: nat): (r: nat)
    ensures r > 0
  {
    if n == 0 then 1 else 2 * Pow2(n - 1)
  }

  lemma {:induction false} Pow2Add(a: nat, b: nat)
    ensures Pow2(a + b) == Pow2(a) * Pow2(b)
    decreases a
  {
    if a > 0 {
      Pow2Add(a - 1, b);
    }
  }

  lemma Pow2Of30()
    ensures Pow2(30) == 0x4000_0000
  {
    assert Pow2(2) == 4;
    Pow2Add(2, 2);
    Pow2Add(4, 4);
    Pow2Add(8, 8);
    Pow2Add(16, 8);
    Pow2Add(24, 4);
    Pow2Add(28, 2);
  }

  predicate AllWritten(ticks: seq<Tick>) {
    forall i | 0 <= i < |ticks| :: ticks[i].written
  }

  predicate AllHot(ticks: seq<Tick>, maxTemperature: int) {
    forall i | 0 <= i < |ticks| :: IsHot(ticks[i].cpuTemp, maxTemperature)
  }

  predicate AllCool(ticks: seq<Tick>, maxTemperature: int) {
    forall i | 0 <= i < |ticks| :: !IsHot(ticks[i].cpuTemp, maxTemperature)
  }

  /** A non-negative probability stays non-negative through any run. */
  lemma {:induction false} TraceNonNegative(prob: int, ticks: seq<Tick>, maxTemperature: int)
    requires prob >= 0
    ensures forall i | 0 <= i < |ticks| :: Trace(prob, ticks, maxTemperature)[i] >= 0
    decreases ticks
  {
    if ticks != [] {
      TraceNonNegative(Step(prob, ticks[0], maxTemperature), ticks[1..], maxTemperature);
    }
  }

  /** If no write goes through, the in-memory probability never moves. */
  lemma {:induction false} FailedWritesKeepProbability(prob: int, ticks: seq<Tick>, maxTemperature: int)
    requires forall i | 0 <= i < |ticks| :: !ticks[i].written
    ensures forall i | 0 <= i < |ticks| :: Trace(prob, ticks, maxTemperature)[i] == prob
    decreases ticks
  {
    if ticks != [] {
      FailedWritesKeepProbability(prob, ticks[1..], maxTemperature);
    }
  }

  /** Below the threshold the probability falls by one per tick until it reaches 0. */
  lemma {:induction false} CoolTicksDecay(prob: int, ticks: seq<Tick>, maxTemperature: int)
    requires prob >= 0
    requires AllWritten(ticks) && AllCool(ticks, maxTemperature)
    ensures forall i | 0 <= i < |ticks| :: Trace(prob, ticks, maxTemperature)[i] == Max(prob - (i + 1), 0)
    decreases ticks
  {
    if ticks != [] {
      var p := Step(prob, ticks[0], maxTemperature);
      CoolTicksDecay(p, ticks[1..], maxTemperature);
    }
  }

  /** At or above the threshold a positive probability doubles on every tick. */
  lemma {:induction false} HotTicksDouble(prob: int, ticks: seq<Tick>, maxTemperature: int)
    requires prob > 0
    requires AllWritten(ticks) && AllHot(ticks, maxTemperature)
    ensures forall i | 0 <= i < |ticks| :: Trace(prob, ticks, maxTemperature)[i] == prob * Pow2(i + 1)
    decreases ticks
  {
    if ticks != [] {
      var p := Step(prob, ticks[0], maxTemperature);
      assert p == prob * Pow2(1);
      HotTicksDouble(p, ticks[1..], maxTemperature);
      var ps := Trace(prob, ticks, maxTemperature);
      forall i | 1 <= i < |ticks|
        ensures ps[i] == prob * Pow2(i + 1)
      {
        calc {
          ps[i];
          Trace(p, ticks[1..], maxTemperature)[i - 1];
          (2 * prob) * Pow2(i);
          prob * (2 * Pow2(i));
        }
      }
    }
  }

  /** Starting from 0, a run of hot ticks gives 1, 2, 4, ... */
  lemma HotTicksFromZero(ticks: seq<Tick>, maxTemperature: int)
    requires AllWritten(ticks) && AllHot(ticks, maxTemperature)
    ensures forall i | 0 <= i < |ticks| :: Trace(0, ticks, maxTemperature)[i] == Pow2(i)
  {
    if ticks != [] {
      HotTicksDouble(1, ticks[1..], maxTemperature);
    }
  }

  /** Threshold 60, probability 0, CPU samples 70, 70, 59, 59, every write done: 1, 2, 1, 0. */
  lemma AllWritesDoneScenario()
    ensures Trace(0, [Tick(70, true), Tick(70, true), Tick(59, true), Tick(59, true)], 60) == [1, 2, 1, 0]
  {
  }

  /** The same run with the second write failing: 1, 1, 0, 0. */
  lemma SecondWriteFailsScenario()
    ensures Trace(0, [Tick(70, true), Tick(70, false), Tick(59, true), Tick(59, true)], 60) == [1, 1, 0, 0]
  {
  }

  /** With 32-bit arithmetic a hot tick at 2^30 turns the probability negative. */
  lemma JavaDoublingTurnsNegative(cpuTemp: int, maxTemperature: int)
    requires IsHot(cpuTemp, maxTemperature)
    ensures JavaNextProbability(0x4000_0000, cpuTemp, maxTemperature) == INT_MIN
    ensures NextProbability(0x4000_0000, cpuTemp, maxTemperature) == 0x8000_0000
  {
  }

  /**
   * 2^30 is reached: after 31 hot ticks from 0, every write done, the
   * probability is 2^30, so the 32nd hot tick overflows in the source.
   */
  lemma OverflowIsReachable(ticks: seq<Tick>, maxTemperature: int)
    requires |ticks| == 31
    requires AllWritten(ticks) && AllHot(ticks, maxTemperature)
    ensures Trace(0, ticks, maxTemperature)[30] == 0x4000_0000
    ensures JavaNextProbability(Trace(0, ticks, maxTemperature)[30], maxTemperature, maxTemperature) < 0
  {
    HotTicksFromZero(ticks, maxTemperature);
    Pow2Of30();
  }
}
