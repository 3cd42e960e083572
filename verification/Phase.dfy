/**
 Phase gained against the original clock. A trace records, in order, each clock that was asked for, the
 register image it was programmed with and how long it stayed; the phase is what the vblanks drift
 meanwhile.
 */
module Phase {
  import opened RealMath
  import opened Codec
  import opened Ramp

  /** A clock asked for, the image that was programmed for it, and the milliseconds it was kept. */
  datatype Dwell<Code> = Dwell(clock: real, image: Code, ms: real)

  /** The image in force after writing `clocks` one after the other. */
  function Programmed<Code>(codec: Codec<Code>, image: Code, clocks: seq<real>): Code {
    if clocks == [] then image
    else
      var k := |clocks| - 1;
      codec.encode(Programmed(codec, image, clocks[..k]), clocks[k])
  }

  /** The trace of writing `clocks` one after the other, each kept for `ms`. */
  function WriteTrace<Code>(codec: Codec<Code>, image: Code, clocks: seq<real>, ms: real): seq<Dwell<Code>> {
    if clocks == [] then []
    else
      var k := |clocks| - 1;
      WriteTrace(codec, image, clocks[..k], ms) + [Dwell(clocks[k], Programmed(codec, image, clocks), ms)]
  }

  /** The drift in milliseconds while the clock is `clock` instead of `base` for `ms`. */
  function Gain(base: real, clock: real, ms: real): real
    requires base > 0.0
  {
    (base - clock) / base * ms
  }

  function PhaseGained<Code>(base: real, trace: seq<Dwell<Code>>): real
    requires base > 0.0
  {
    if trace == [] then 0.0
    else PhaseGained(base, trace[..|trace| - 1]) + Gain(base, trace[|trace| - 1].clock, trace[|trace| - 1].ms)
  }

  lemma {:induction false} PhaseOfConcat<Code>(base: real, a: seq<Dwell<Code>>, b: seq<Dwell<Code>>)
    requires base > 0.0
    ensures PhaseGained(base, a + b) == PhaseGained(base, a) + PhaseGained(base, b)
    decreases |b|
  {
    if b == [] {
      assert a + b == a;
    } else {
      var k := |b| - 1;
      PhaseOfConcat(base, a, b[..k]);
      assert (a + b)[..|a + b| - 1] == a + b[..k];
    }
  }

  lemma PhaseOfOne<Code>(base: real, d: Dwell<Code>)
    requires base > 0.0
    ensures PhaseGained(base, [d]) == Gain(base, d.clock, d.ms)
  {
    assert [d][..0] == [];
  }

  // ----- the phase of a ramp

  /** 1 + 2 + ... + k */
  function Triangle(k: nat): nat {
    if k == 0 then 0 else Triangle(k - 1) + k
  }

  lemma TriangleFormula(k: nat)
    ensures 2 * Triangle(k) == k * (k + 1)
  {
  }

  /** The phase of the first `k` steps: `k` times the offset of the start, less the steps taken from there. */
  function RampPhase(offset: real, step: real, ms: real, k: nat): real {
    (k as real * offset - Triangle(k) as real * step) * ms
  }

  lemma GainOfStep(base: real, current: real, size: real, ms: real, i: nat)
    requires base > 0.0
    ensures Gain(base, current + i as real * size, ms) == ((base - current) / base - i as real * (size / base)) * ms
  {
    var x, y := i as real * size, i as real * (size / base);
    DivTimes(size, base);
    assert y * base == x;
    DivTimes(base - current - x, base);
    DivTimes(base - current, base);
    var p, q := (base - current - x) / base, (base - current) / base;
    assert (p - q + y) * base == 0.0;
    assert p == q - y;
  }

  /** The drift of step `i`. */
  function StepPhase(offset: real, step: real, ms: real, i: nat): real {
    (offset - i as real * step) * ms
  }

  lemma RampPhaseStep(offset: real, step: real, ms: real, k: nat)
    ensures RampPhase(offset, step, ms, k + 1) == RampPhase(offset, step, ms, k) + StepPhase(offset, step, ms, k + 1)
  {
    var a, t, i := k as real, Triangle(k) as real, (k + 1) as real;
    assert Triangle(k + 1) as real == t + i;
    assert (a + 1.0) * offset - (t + i) * step == (a * offset - t * step) + (offset - i * step);
  }

  lemma GainOfClockAt(base: real, current: real, target: real, n: int, ms: real, i: nat)
    requires base > 0.0 && i <= n && n >= 1
    ensures Gain(base, ClockAt(current, target, n, i), ms)
         == StepPhase((base - current) / base, StepSize(current, target, n) / base, ms, i)
  {
    ClockAtLinear(current, target, n, i);
    GainOfStep(base, current, StepSize(current, target, n), ms, i);
  }

  lemma PhaseOfLastWrite<Code>(codec: Codec<Code>, image: Code, base: real, clocks: seq<real>, ms: real)
    requires base > 0.0 && clocks != []
    ensures var k := |clocks| - 1;
      PhaseGained(base, WriteTrace(codec, image, clocks, ms))
      == PhaseGained(base, WriteTrace(codec, image, clocks[..k], ms)) + Gain(base, clocks[k], ms)
  {
    var k := |clocks| - 1;
    var last := Dwell(clocks[k], Programmed(codec, image, clocks), ms);
    PhaseOfConcat(base, WriteTrace(codec, image, clocks[..k], ms), [last]);
    PhaseOfOne(base, last);
  }

  lemma {:induction false} PhaseOfEvenSteps<Code>(codec: Codec<Code>, image: Code, base: real, current: real,
                                                  target: real, n: int, clocks: seq<real>, ms: real)
    requires base > 0.0 && n >= 1 && |clocks| <= n
    requires forall i :: 0 <= i < |clocks| ==> clocks[i] == ClockAt(current, target, n, i + 1)
    ensures PhaseGained(base, WriteTrace(codec, image, clocks, ms))
         == RampPhase((base - current) / base, StepSize(current, target, n) / base, ms, |clocks|)
    decreases |clocks|
  {
    var offset, step := (base - current) / base, StepSize(current, target, n) / base;
    if clocks == [] {
      assert RampPhase(offset, step, ms, 0) == 0.0;
    } else {
      var k := |clocks| - 1;
      PhaseOfLastWrite(codec, image, base, clocks, ms);
      PhaseOfEvenSteps(codec, image, base, current, target, n, clocks[..k], ms);
      GainOfClockAt(base, current, target, n, ms, k + 1);
      RampPhaseStep(offset, step, ms, k);
    }
  }

  // ----- one correction cycle

  /** `CALC_STEPS_TO_SYNC`: how long the shifted clock is held, in milliseconds. */
  function HoldMs(timeDiff: real, shift: real): nat {
    if shift == 0.0 then 0 else AbsInt(Trunc(timeDiff * 100.0 / shift))
  }

  /** A positive time difference lowers the clock, any other raises it. */
  function Direction(timeDiff: real): real {
    if timeDiff > 0.0 then -1.0 else 1.0
  }

  function ShiftedClock(base: real, timeDiff: real, shift: real): real {
    base + shift * base / 100.0 * Direction(timeDiff)
  }

  /** Steps are only waited for when there is more than one. */
  function StepWait(steps: int, wait: nat): real {
    if steps > 1 then wait as real else 0.0
  }

  function RampTrace<Code>(codec: Codec<Code>, image: Code, current: real, target: real, shift: real,
                           wait: nat): seq<Dwell<Code>>
    requires ValidRequest(current, target, shift) && Defined(current, target, shift)
  {
    var clocks := RampClocks(current, target, shift);
    WriteTrace(codec, image, clocks, StepWait(|clocks|, wait))
  }

  /** Ramp to the shifted clock, hold it, ramp back. */
  function CycleTrace<Code>(codec: Codec<Code>, image: Code, base: real, shifted: real, rampShift: real, wait: nat,
                            hold: nat): seq<Dwell<Code>>
    requires ValidRequest(base, shifted, rampShift) && Defined(base, shifted, rampShift)
    requires Defined(shifted, base, rampShift)
  {
    var there := Programmed(codec, image, RampClocks(base, shifted, rampShift));
    RampTrace(codec, image, base, shifted, rampShift, wait)
    + [Dwell(shifted, there, hold as real)]
    + RampTrace(codec, there, shifted, base, rampShift, wait)
  }

  /** The phase of all `n` steps when together they make up `total`. */
  function WholeRampPhase(offset: real, total: real, ms: real, n: int): real {
    (n as real * offset - total * (n + 1) as real / 2.0) * ms
  }

  lemma RampPhaseTotal(offset: real, step: real, ms: real, n: nat, total: real)
    requires n as real * step == total
    ensures RampPhase(offset, step, ms, n) == WholeRampPhase(offset, total, ms, n)
  {
    TriangleFormula(n);
    var t, a, b := Triangle(n) as real, n as real, (n + 1) as real;
    assert 2.0 * t == (2 * Triangle(n)) as real == (n * (n + 1)) as real == a * b;
    assert 2.0 * (t * step) == (a * b) * step == (a * step) * b == total * b;
  }

  lemma ScaledStepTotal(base: real, size: real, n: int, change: real)
    requires base > 0.0 && n as real * size == change
    ensures n as real * (size / base) == change / base
  {
    DivTimes(size, base);
    DivTimes(change, base);
    var x, y := n as real * (size / base), change / base;
    assert x * base == n as real * (size / base * base) == change;
    assert (x - y) * base == 0.0;
  }

  lemma RampPhaseOfSize(base: real, offset: real, size: real, ms: real, n: nat, change: real)
    requires base > 0.0 && n as real * size == change
    ensures RampPhase(offset, size / base, ms, n) == WholeRampPhase(offset, change / base, ms, n)
  {
    ScaledStepTotal(base, size, n, change);
    RampPhaseTotal(offset, size / base, ms, n, change / base);
  }

  lemma EvenRampPhase<Code>(codec: Codec<Code>, image: Code, base: real, current: real, target: real, n: int,
                            clocks: seq<real>, ms: real)
    requires base > 0.0 && n >= 1 && |clocks| == n
    requires forall i :: 0 <= i < n ==> clocks[i] == ClockAt(current, target, n, i + 1)
    ensures PhaseGained(base, WriteTrace(codec, image, clocks, ms))
         == WholeRampPhase((base - current) / base, (target - current) / base, ms, n)
  {
    PhaseOfEvenSteps(codec, image, base, current, target, n, clocks, ms);
    StepSizeTimes(current, target, n);
    RampPhaseOfSize(base, (base - current) / base, StepSize(current, target, n), ms, n, target - current);
  }

  lemma RampTracePhase<Code>(codec: Codec<Code>, image: Code, base: real, current: real, target: real, shift: real,
                             wait: nat)
    requires base > 0.0 && ValidRequest(current, target, shift) && Defined(current, target, shift)
    ensures var n := StepCount(current, target, shift);
      PhaseGained(base, RampTrace(codec, image, current, target, shift, wait))
      == WholeRampPhase((base - current) / base, (target - current) / base, StepWait(n, wait), n)
  {
    var n := StepCount(current, target, shift);
    StepCountPositive(current, target, shift);
    EvenRampPhase(codec, image, base, current, target, n, RampClocks(current, target, shift), StepWait(n, wait));
  }

  /** The relative offset of the shifted clock. */
  function Offset(base: real, shifted: real): real
    requires base > 0.0
  {
    (base - shifted) / base
  }

  /** The part of the clock that is taken away: positive when timestamps are to be delayed. */
  function SignedShift(timeDiff: real, shift: real): real {
    -Direction(timeDiff) * shift / 100.0
  }

  lemma OffsetOfShift(base: real, timeDiff: real, shift: real)
    requires base > 0.0
    ensures Offset(base, ShiftedClock(base, timeDiff, shift)) == SignedShift(timeDiff, shift)
  {
    var d := Direction(timeDiff);
    var x := Offset(base, ShiftedClock(base, timeDiff, shift));
    DivTimes(base - ShiftedClock(base, timeDiff, shift), base);
    assert x * base == -(shift * base / 100.0 * d) == (-d * shift / 100.0) * base;
    assert (x - (-d * shift / 100.0)) * base == 0.0;
  }

  /** The waits of the ramp to the shifted clock, weighted by how much of the shift is in force. */
  function UpMs(n: int, wait: nat): real { (n + 1) as real / 2.0 * StepWait(n, wait) }

  /** The same for the ramp back, whose last wait is at the original clock. */
  function DownMs(n: int, wait: nat): real { (n - 1) as real / 2.0 * StepWait(n, wait) }

  lemma UpPhase<Code>(codec: Codec<Code>, image: Code, base: real, shifted: real, shift: real, wait: nat)
    requires ValidRequest(base, shifted, shift) && Defined(base, shifted, shift)
    ensures PhaseGained(base, RampTrace(codec, image, base, shifted, shift, wait))
         == Times(Offset(base, shifted), UpMs(StepCount(base, shifted, shift), wait))
  {
    RampTracePhase(codec, image, base, base, shifted, shift, wait);
    NegatedQuotient(base, shifted);
    UpAlgebra(StepCount(base, shifted, shift), Offset(base, shifted), wait);
  }

  lemma NegatedQuotient(base: real, shifted: real)
    requires base > 0.0
    ensures (shifted - base) / base == -Offset(base, shifted) && (base - base) / base == 0.0
  {
  }

  lemma UpAlgebra(n: int, x: real, wait: nat)
    ensures WholeRampPhase(0.0, -x, StepWait(n, wait), n) == Times(x, UpMs(n, wait))
  {
  }

  lemma DownAlgebra(n: int, x: real, wait: nat)
    ensures WholeRampPhase(x, x, StepWait(n, wait), n) == Times(x, DownMs(n, wait))
  {
    var a, ms := n as real, StepWait(n, wait);
    assert (n + 1) as real == a + 1.0 && (n - 1) as real == a - 1.0;
    assert a * x - x * (a + 1.0) / 2.0 == x * ((a - 1.0) / 2.0);
  }

  lemma DownPhase<Code>(codec: Codec<Code>, image: Code, base: real, shifted: real, shift: real, wait: nat)
    requires ValidRequest(shifted, base, shift) && Defined(shifted, base, shift) && base > 0.0
    ensures PhaseGained(base, RampTrace(codec, image, shifted, base, shift, wait))
         == Times(Offset(base, shifted), DownMs(StepCount(shifted, base, shift), wait))
  {
    RampTracePhase(codec, image, base, shifted, base, shift, wait);
    DownAlgebra(StepCount(shifted, base, shift), Offset(base, shifted), wait);
  }

  /** The time, in milliseconds, for which a cycle is worth the full shift. */
  function EffectiveMs(n: int, back: int, wait: nat, hold: nat): real {
    hold as real + UpMs(n, wait) + DownMs(back, wait)
  }

  /** In whole waits: half of the steps of both ramps, or only of the way back when the way there is one step. */
  lemma EffectiveMsInWaits(n: int, back: int, wait: nat, hold: nat)
    requires n >= 1 && back >= 1
    ensures EffectiveMs(n, back, wait, hold)
         == hold as real + (if n > 1 then n + back else back - 1) as real * wait as real / 2.0
  {
    var w := wait as real;
    assert (n + back) as real * w == (n + 1) as real * w + (back - 1) as real * w;
  }

  lemma Distribute(x: real, a: real, b: real, c: real)
    ensures Times(x, a) + Times(x, b) + Times(x, c) == Times(x, b + a + c)
  {
  }

  lemma GainIsTimes(base: real, clock: real, ms: real)
    requires base > 0.0
    ensures Gain(base, clock, ms) == Times(Offset(base, clock), ms)
  {
  }

  lemma PhaseOfThree<Code>(base: real, a: seq<Dwell<Code>>, d: Dwell<Code>, b: seq<Dwell<Code>>)
    requires base > 0.0
    ensures PhaseGained(base, a + [d] + b)
         == PhaseGained(base, a) + Times(Offset(base, d.clock), d.ms) + PhaseGained(base, b)
  {
    PhaseOfConcat(base, a + [d], b);
    PhaseOfConcat(base, a, [d]);
    PhaseOfOne(base, d);
    GainIsTimes(base, d.clock, d.ms);
  }

  lemma TracePhase<Code>(codec: Codec<Code>, image: Code, base: real, shifted: real, rampShift: real, wait: nat,
                         hold: nat)
    requires ValidRequest(base, shifted, rampShift) && Defined(base, shifted, rampShift)
    requires Defined(shifted, base, rampShift)
    ensures var n, back := StepCount(base, shifted, rampShift), StepCount(shifted, base, rampShift);
      PhaseGained(base, CycleTrace(codec, image, base, shifted, rampShift, wait, hold))
      == Times(Offset(base, shifted), EffectiveMs(n, back, wait, hold))
  {
    var there := Programmed(codec, image, RampClocks(base, shifted, rampShift));
    var up := RampTrace(codec, image, base, shifted, rampShift, wait);
    var down := RampTrace(codec, there, shifted, base, rampShift, wait);
    PhaseOfThree(base, up, Dwell(shifted, there, hold as real), down);
    UpPhase(codec, image, base, shifted, rampShift, wait);
    DownPhase(codec, there, base, shifted, rampShift, wait);
    Distribute(Offset(base, shifted), UpMs(StepCount(base, shifted, rampShift), wait), hold as real,
               DownMs(StepCount(shifted, base, rampShift), wait));
  }

  /**
   The phase of a whole cycle is the relative shift times the effective time: the hold, plus half of
   the waits of both ramps, counting the last wait of the first and not that of the second. Nothing
   else is gained or lost on the way to the shifted clock and back.
   */
  lemma CyclePhase<Code>(codec: Codec<Code>, image: Code, base: real, timeDiff: real, shift: real, rampShift: real,
                         wait: nat, hold: nat)
    requires var shifted := ShiftedClock(base, timeDiff, shift);
      ValidRequest(base, shifted, rampShift) && Defined(base, shifted, rampShift) && Defined(shifted, base, rampShift)
    ensures var shifted := ShiftedClock(base, timeDiff, shift);
      var n, back := StepCount(base, shifted, rampShift), StepCount(shifted, base, rampShift);
      PhaseGained(base, CycleTrace(codec, image, base, shifted, rampShift, wait, hold))
      == Times(SignedShift(timeDiff, shift), EffectiveMs(n, back, wait, hold))
  {
    TracePhase(codec, image, base, ShiftedClock(base, timeDiff, shift), rampShift, wait, hold);
    OffsetOfShift(base, timeDiff, shift);
  }

  /** The hold alone is worth the time difference, short by less than one millisecond's worth of shift. */
  lemma HoldCoversDifference(timeDiff: real, shift: real)
    requires shift > 0.0
    ensures Abs(timeDiff) - shift / 100.0 < HoldMs(timeDiff, shift) as real * shift / 100.0 <= Abs(timeDiff)
  {
    var q := timeDiff * 100.0 / shift;
    DivTimes(timeDiff * 100.0, shift);
    var h := HoldMs(timeDiff, shift) as real;
    assert h <= Abs(q) < h + 1.0;
    FactorOrder(Abs(q), h + 1.0, shift);
    MulMonotone(h, Abs(q), shift);
    assert Abs(q) * shift == Abs(timeDiff) * 100.0;
  }

  // ----- the clocks the hardware really runs at

  /** The phase at the clocks the programmed images stand for, instead of those asked for. */
  function PhaseRunning<Code>(codec: Codec<Code>, base: real, trace: seq<Dwell<Code>>): real
    requires base > 0.0
  {
    if trace == [] then 0.0
    else
      var d := trace[|trace| - 1];
      PhaseRunning(codec, base, trace[..|trace| - 1]) + Gain(base, codec.decode(d.image), d.ms)
  }

  lemma {:induction false} RunningOfConcat<Code>(codec: Codec<Code>, base: real, a: seq<Dwell<Code>>,
                                                 b: seq<Dwell<Code>>)
    requires base > 0.0
    ensures PhaseRunning(codec, base, a + b) == PhaseRunning(codec, base, a) + PhaseRunning(codec, base, b)
    decreases |b|
  {
    if b == [] {
      assert a + b == a;
    } else {
      var k := |b| - 1;
      RunningOfConcat(codec, base, a, b[..k]);
      assert (a + b)[..|a + b| - 1] == a + b[..k];
    }
  }

  lemma NoTimeNoGain(base: real, clock: real)
    requires base > 0.0
    ensures Gain(base, clock, 0.0) == 0.0
  {
  }

  /** Writes that are not waited for gain nothing, whatever the registers stand for. */
  lemma {:induction false} RunningOfUnwaited<Code>(codec: Codec<Code>, base: real, image: Code, clocks: seq<real>)
    requires base > 0.0
    ensures PhaseRunning(codec, base, WriteTrace(codec, image, clocks, 0.0)) == 0.0
    decreases |clocks|
  {
    if clocks != [] {
      var k := |clocks| - 1;
      RunningOfUnwaited(codec, base, image, clocks[..k]);
      var last := Dwell(clocks[k], Programmed(codec, image, clocks), 0.0);
      RunningOfConcat(codec, base, WriteTrace(codec, image, clocks[..k], 0.0), [last]);
      RunningOfOne(codec, base, last);
      NoTimeNoGain(base, codec.decode(last.image));
    }
  }

  lemma RunningOfOne<Code>(codec: Codec<Code>, base: real, d: Dwell<Code>)
    requires base > 0.0
    ensures PhaseRunning(codec, base, [d]) == Gain(base, codec.decode(d.image), d.ms)
  {
    assert [d][..0] == [];
  }

  /** A cycle without waits gains on the hardware what its hold gains. */
  lemma RunningOfUnwaitedCycle<Code>(codec: Codec<Code>, image: Code, base: real, shifted: real, rampShift: real,
                                     wait: nat, hold: nat)
    requires ValidRequest(base, shifted, rampShift)
    requires Defined(base, shifted, rampShift) && Defined(shifted, base, rampShift)
    requires StepWait(StepCount(base, shifted, rampShift), wait) == 0.0
    requires StepWait(StepCount(shifted, base, rampShift), wait) == 0.0
    ensures var there := Programmed(codec, image, RampClocks(base, shifted, rampShift));
      PhaseRunning(codec, base, CycleTrace(codec, image, base, shifted, rampShift, wait, hold))
      == Gain(base, codec.decode(there), hold as real)
  {
    var clocks, back := RampClocks(base, shifted, rampShift), RampClocks(shifted, base, rampShift);
    var there := Programmed(codec, image, clocks);
    var up, held := WriteTrace(codec, image, clocks, 0.0), Dwell(shifted, there, hold as real);
    var down := WriteTrace(codec, there, back, 0.0);
    RunningOfConcat(codec, base, up + [held], down);
    RunningOfConcat(codec, base, up, [held]);
    RunningOfUnwaited(codec, base, image, clocks);
    RunningOfUnwaited(codec, base, there, back);
    RunningOfOne(codec, base, held);
  }

  function TotalMs<Code>(trace: seq<Dwell<Code>>): real {
    if trace == [] then 0.0 else TotalMs(trace[..|trace| - 1]) + trace[|trace| - 1].ms
  }

  lemma {:induction false} TotalOfConcat<Code>(a: seq<Dwell<Code>>, b: seq<Dwell<Code>>)
    ensures TotalMs(a + b) == TotalMs(a) + TotalMs(b)
    decreases |b|
  {
    if b == [] {
      assert a + b == a;
    } else {
      var k := |b| - 1;
      TotalOfConcat(a, b[..k]);
      assert (a + b)[..|a + b| - 1] == a + b[..k];
    }
  }

  lemma {:induction false} TotalOfWrites<Code>(codec: Codec<Code>, image: Code, clocks: seq<real>, ms: real)
    ensures TotalMs(WriteTrace(codec, image, clocks, ms)) == Times(|clocks| as real, ms)
    decreases |clocks|
  {
    if clocks != [] {
      var k := |clocks| - 1;
      TotalOfWrites(codec, image, clocks[..k], ms);
      var last := [Dwell(clocks[k], Programmed(codec, image, clocks), ms)];
      TotalOfConcat(WriteTrace(codec, image, clocks[..k], ms), last);
      assert last[..0] == [];
      assert (k + 1) as real * ms == k as real * ms + ms;
    }
  }

  /** How long a cycle takes: the hold and every wait of both ramps. */
  lemma TotalOfCycle<Code>(codec: Codec<Code>, image: Code, base: real, shifted: real, rampShift: real, wait: nat,
                           hold: nat)
    requires ValidRequest(base, shifted, rampShift)
    requires Defined(base, shifted, rampShift) && Defined(shifted, base, rampShift)
    ensures var n, back := StepCount(base, shifted, rampShift), StepCount(shifted, base, rampShift);
      TotalMs(CycleTrace(codec, image, base, shifted, rampShift, wait, hold))
      == Times(n as real, StepWait(n, wait)) + hold as real + Times(back as real, StepWait(back, wait))
  {
    var clocks := RampClocks(base, shifted, rampShift);
    var there := Programmed(codec, image, clocks);
    var up, held := RampTrace(codec, image, base, shifted, rampShift, wait), [Dwell(shifted, there, hold as real)];
    var down := RampTrace(codec, there, shifted, base, rampShift, wait);
    TotalOfConcat(up + held, down);
    TotalOfConcat(up, held);
    TotalOfWrites(codec, image, clocks, StepWait(|clocks|, wait));
    TotalOfWrites(codec, there, RampClocks(shifted, base, rampShift), StepWait(StepCount(shifted, base, rampShift),
                  wait));
    assert held[..0] == [];
  }

  /** Every image of the trace is within `eps` of the clock that was asked for. */
  ghost predicate Accurate<Code>(codec: Codec<Code>, trace: seq<Dwell<Code>>, eps: real) {
    forall i :: 0 <= i < |trace| ==> trace[i].ms >= 0.0 && Abs(trace[i].clock - codec.decode(trace[i].image)) <= eps
  }

  ghost predicate InRange(clocks: seq<real>, lo: real, hi: real) {
    forall i :: 0 <= i < |clocks| ==> lo <= clocks[i] < hi
  }

  lemma GainError(base: real, clock: real, running: real, ms: real, eps: real)
    requires base > 0.0 && ms >= 0.0 && Abs(clock - running) <= eps
    ensures Abs(Gain(base, running, ms) - Gain(base, clock, ms)) <= Times(eps / base, ms)
  {
    var x, y, e := (base - running) / base, (base - clock) / base, eps / base;
    DivTimes(base - running, base);
    DivTimes(base - clock, base);
    DivTimes(eps, base);
    assert (x - y) * base == clock - running;
    FactorOrder(e, x - y, base);
    FactorOrder(e, y - x, base);
    MulMonotone(x - y, e, ms);
    MulMonotone(y - x, e, ms);
  }

  /**
   The phase at the running clocks differs from the computed one by at most the write error, relative to the
   clock, times the time.
   */
  lemma {:induction false} PhaseError<Code>(codec: Codec<Code>, base: real, trace: seq<Dwell<Code>>, eps: real)
    requires base > 0.0 && Accurate(codec, trace, eps)
    ensures Abs(PhaseRunning(codec, base, trace) - PhaseGained(base, trace)) <= Times(eps / base, TotalMs(trace))
  {
    if trace == [] {
    } else {
      var k := |trace| - 1;
      var d := trace[k];
      PhaseError(codec, base, trace[..k], eps);
      GainError(base, d.clock, codec.decode(d.image), d.ms, eps);
      TimesSum(eps / base, TotalMs(trace[..k]), d.ms);
    }
  }

  lemma TimesSum(x: real, a: real, b: real)
    ensures Times(x, a + b) == Times(x, a) + Times(x, b)
  {
  }

  lemma {:induction false} WritesAccurate<Code(!new)>(codec: Codec<Code>, ok: Code -> bool, lo: real, hi: real,
                                                      eps: real, image: Code, clocks: seq<real>, ms: real)
    requires Quantises(codec, ok, lo, hi, eps) && ok(image) && ms >= 0.0
    requires InRange(clocks, lo, hi)
    ensures ok(Programmed(codec, image, clocks))
    ensures Accurate(codec, WriteTrace(codec, image, clocks, ms), eps)
    decreases |clocks|
  {
    if clocks == [] {
    } else {
      var k := |clocks| - 1;
      WritesAccurate(codec, ok, lo, hi, eps, image, clocks[..k], ms);
      var before := Programmed(codec, image, clocks[..k]);
      assert ok(before) && lo <= clocks[k] < hi;
      assert ok(codec.encode(before, clocks[k]));
    }
  }

  lemma RampInRange(current: real, target: real, shift: real, lo: real, hi: real)
    requires ValidRequest(current, target, shift) && Defined(current, target, shift)
    requires lo <= current < hi && lo <= target < hi
    ensures InRange(RampClocks(current, target, shift), lo, hi)
  {
    var r, n := RampClocks(current, target, shift), StepCount(current, target, shift);
    forall i | 0 <= i < |r| ensures lo <= r[i] < hi {
      ClockAtMonotone(current, target, n, 0, i + 1);
      ClockAtLinear(current, target, n, 0);
    }
  }

  /** The computed phase of a cycle is the phase of the hardware up to the write error of the PHY. */
  lemma CyclePhaseOnHardware<Code(!new)>(codec: Codec<Code>, ok: Code -> bool, lo: real, hi: real, eps: real,
                                         image: Code,
                                         base: real, shifted: real, rampShift: real, wait: nat, hold: nat)
    requires Quantises(codec, ok, lo, hi, eps) && ok(image) && lo <= base < hi && lo <= shifted < hi
    requires ValidRequest(base, shifted, rampShift) && Defined(base, shifted, rampShift)
    requires Defined(shifted, base, rampShift)
    ensures var trace := CycleTrace(codec, image, base, shifted, rampShift, wait, hold);
      Abs(PhaseRunning(codec, base, trace) - PhaseGained(base, trace)) <= Times(eps / base, TotalMs(trace))
  {
    RampAccurate(codec, ok, lo, hi, eps, image, base, shifted, rampShift, wait);
    var there := Programmed(codec, image, RampClocks(base, shifted, rampShift));
    RampAccurate(codec, ok, lo, hi, eps, there, shifted, base, rampShift, wait);
    PhaseError(codec, base, CycleTrace(codec, image, base, shifted, rampShift, wait, hold), eps);
  }

  lemma RampAccurate<Code(!new)>(codec: Codec<Code>, ok: Code -> bool, lo: real, hi: real, eps: real, image: Code,
                                 current: real, target: real, shift: real, wait: nat)
    requires Quantises(codec, ok, lo, hi, eps) && ok(image) && lo <= current < hi && lo <= target < hi
    requires ValidRequest(current, target, shift) && Defined(current, target, shift)
    ensures var there := Programmed(codec, image, RampClocks(current, target, shift));
      ok(there) && Abs(target - codec.decode(there)) <= eps
    ensures Accurate(codec, RampTrace(codec, image, current, target, shift, wait), eps)
  {
    var clocks := RampClocks(current, target, shift);
    var k := |clocks| - 1;
    StepCountPositive(current, target, shift);
    RampInRange(current, target, shift, lo, hi);
    WritesAccurate(codec, ok, lo, hi, eps, image, clocks, StepWait(|clocks|, wait));
    var trace := RampTrace(codec, image, current, target, shift, wait);
    assert trace[|trace| - 1] == Dwell(clocks[k], Programmed(codec, image, clocks), StepWait(|clocks|, wait));
    assert clocks[k] == target;
  }
}
