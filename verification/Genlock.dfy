/**
 End to end: from the vblank stamps of the two machines to the phase that is left after one
 synchronisation. A delta is the secondary's stamp minus the primary's in microseconds, so a phase gained
 by the secondary's clock, which delays its vblanks, adds to it.
 */
module Genlock {
  import opened RealMath
  import opened Codec
  import opened Ramp
  import opened Phase
  import opened Phy
  import opened Measure
  import opened Controller
  import Bits
  import ComboPll
  import Learning

  /** Shifts and overshoot as the options of the program document them, with a shift to work with. */
  predicate Sound(cfg: Config) {
    0.0 < cfg.shift <= 1.0 && 0.0 <= cfg.shift2 <= 1.0 && 0.0 <= cfg.overshoot
  }

  /** The overshoot that one synchronisation applies. */
  function Overshoot(cfg: Config, duration: int): real {
    if !IsNotZero(cfg.learningRate) || duration > cfg.timePeriod * 1000 then cfg.overshoot else 0.0
  }

  /** The correction asked for, in milliseconds. */
  function Request(cfg: Config, delta: int, duration: int): real {
    Adjusted(cfg, DeltaMs(delta), duration)
  }

  /** The shift the request is corrected with. */
  function Shift(cfg: Config, delta: int, duration: int): real {
    ChosenShift(Request(cfg, delta, duration), cfg.shift, cfg.shift2, cfg.stepThreshold)
  }

  /** The delta that is left when the temporary correction is over. */
  ghost function NextDelta<Code>(codec: Codec<Code>, image: Code, cfg: Config, delta: int, duration: int): real
    requires Sound(cfg) && codec.decode(image) > 0.0
  {
    delta as real
      + 1000.0 * PhaseGained(codec.decode(image), TemporaryTrace(codec, image, cfg, DeltaMs(delta), duration))
  }

  /** What the waits between the steps of the two ramps are worth, in milliseconds of the full shift. */
  function RampMs<Code>(codec: Codec<Code>, image: Code, cfg: Config, delta: int, duration: int): real
    requires Sound(cfg) && codec.decode(image) > 0.0
  {
    var td := Request(cfg, delta, duration);
    var base, shifted := codec.decode(image), TargetClock(codec, image, td, cfg.shift, cfg.shift2, cfg.stepThreshold);
    if Writes(codec, image, td, cfg.shift, cfg.shift2, cfg.stepThreshold) && shifted > 0.0
    then UpMs(StepCount(base, shifted, cfg.shift), cfg.wait) + DownMs(StepCount(shifted, base, cfg.shift), cfg.wait)
    else 0.0
  }

  lemma RequestIsOvershot(cfg: Config, delta: int, duration: int)
    ensures 1000.0 * Request(cfg, delta, duration) == -(delta as real) - Times(Overshoot(cfg, duration), delta as real)
  {
    var d, o := delta as real, cfg.overshoot;
    assert d * -1.0 / 1000.0 == -d / 1000.0;
    assert 1000.0 * (-d / 1000.0 * (1.0 + o)) == -d - o * d;
  }

  lemma OvershotOrder(x: real, a: real, o: real, full: real)
    requires 0.0 <= x < a && 0.0 <= o <= full
    ensures 0.0 <= Times(o, x) && x + Times(o, x) < Times(a, 1.0 + full)
  {
    MulMonotone(0.0, x, o);
    MulMonotone(o, full, x);
    MulMonotone(x, a, full);
  }

  lemma TimesNegated(o: real, x: real)
    ensures Times(o, -x) == -Times(o, x)
  {
  }

  lemma OvershotBound(d: real, a: real, o: real, full: real)
    requires Abs(d) < a && 0.0 <= o <= full && Times(a, 1.0 + full) <= 20000.0
    ensures Abs(d + Times(o, d)) < 20000.0
  {
    OvershotOrder(Abs(d), a, o, full);
    TimesNegated(o, d);
  }

  /** A normalised delta passes the 20 ms guard when the period with the overshoot fits in it. */
  lemma GuardPasses(cfg: Config, delta: int, avg: int, duration: int)
    requires Sound(cfg) && AbsInt(delta) < avg && Times(avg as real, 1.0 + cfg.overshoot) <= 20000.0
    ensures ValidArguments(Request(cfg, delta, duration), cfg.shift, cfg.shift2)
  {
    RequestIsOvershot(cfg, delta, duration);
    OvershotBound(delta as real, avg as real, Overshoot(cfg, duration), cfg.overshoot);
  }

  lemma HoldPhase(td: real, shift: real)
    requires shift > 0.0
    ensures Abs(Times(SignedShift(td, shift), HoldMs(td, shift) as real) - td) < shift / 100.0
  {
    HoldCoversDifference(td, shift);
    var h := HoldMs(td, shift) as real;
    assert Times(SignedShift(td, shift), h) == -Direction(td) * (h * shift / 100.0);
  }

  lemma TimesSplit(x: real, h: real, u: real, d: real)
    ensures Times(x, h + u + d) == Times(x, h) + Times(x, u + d)
  {
  }

  /** The phase of the temporary correction: the hold of the request, and the waits of the ramps on top. */
  lemma TemporaryPhase<Code>(codec: Codec<Code>, image: Code, cfg: Config, delta: int, duration: int)
    requires Sound(cfg) && codec.decode(image) > 0.0
    requires ValidArguments(Request(cfg, delta, duration), cfg.shift, cfg.shift2)
    ensures var td, s := Request(cfg, delta, duration), Shift(cfg, delta, duration);
      PhaseGained(codec.decode(image), TemporaryTrace(codec, image, cfg, DeltaMs(delta), duration))
      == Times(SignedShift(td, s), HoldMs(td, s) as real)
         + Times(SignedShift(td, s), RampMs(codec, image, cfg, delta, duration))
  {
    var td, s := Request(cfg, delta, duration), Shift(cfg, delta, duration);
    var base, hold := codec.decode(image), HoldMs(td, s);
    if hold != 0 {
      TargetPositive(codec, image, td, cfg.shift, cfg.shift2, cfg.stepThreshold);
      var shifted := TargetClock(codec, image, td, cfg.shift, cfg.shift2, cfg.stepThreshold);
      CyclePhase(codec, image, base, td, s, cfg.shift, cfg.wait, hold);
      TimesSplit(SignedShift(td, s), hold as real, UpMs(StepCount(base, shifted, cfg.shift), cfg.wait),
                 DownMs(StepCount(shifted, base, cfg.shift), cfg.wait));
    }
  }

  /**
   The synchronisation of any normalised delta goes the right way by the right amount: what is left is
   minus the overshoot times the delta, to within ten microseconds per percent of shift, plus what the
   waits of the ramps add on the side of the correction.
   */
  lemma NextPhase<Code>(codec: Codec<Code>, image: Code, cfg: Config, delta: int, avg: int, duration: int)
    requires Sound(cfg) && codec.decode(image) > 0.0
    requires AbsInt(delta) < avg && Times(avg as real, 1.0 + cfg.overshoot) <= 20000.0
    ensures var td, s := Request(cfg, delta, duration), Shift(cfg, delta, duration);
      var excess := 1000.0 * Times(SignedShift(td, s), RampMs(codec, image, cfg, delta, duration));
      Abs(NextDelta(codec, image, cfg, delta, duration) + Times(Overshoot(cfg, duration), delta as real) - excess)
        < 10.0 * s
  {
    GuardPasses(cfg, delta, avg, duration);
    TemporaryPhase(codec, image, cfg, delta, duration);
    RequestIsOvershot(cfg, delta, duration);
    HoldPhase(Request(cfg, delta, duration), Shift(cfg, delta, duration));
  }

  /** No step is waited for: each way takes one write, or the wait is zero. */
  predicate NoWaits<Code>(codec: Codec<Code>, image: Code, cfg: Config, delta: int, duration: int)
    requires Sound(cfg) && codec.decode(image) > 0.0
  {
    var base := codec.decode(image);
    var shifted := TargetClock(codec, image, Request(cfg, delta, duration), cfg.shift, cfg.shift2, cfg.stepThreshold);
    || cfg.wait == 0
    || (shifted > 0.0 ==> StepCount(base, shifted, cfg.shift) == 1 && StepCount(shifted, base, cfg.shift) == 1)
  }

  lemma NoWaitsNoRampMs<Code>(codec: Codec<Code>, image: Code, cfg: Config, delta: int, duration: int)
    requires Sound(cfg) && codec.decode(image) > 0.0 && NoWaits(codec, image, cfg, delta, duration)
    ensures RampMs(codec, image, cfg, delta, duration) == 0.0
  {
  }

  /**
   Without steps the excess vanishes, and without overshoot so does the delta, to within the resolution of
   the hold.
   */
  lemma NextPhaseWithoutWaits<Code>(codec: Codec<Code>, image: Code, cfg: Config, delta: int, avg: int, duration: int)
    requires Sound(cfg) && codec.decode(image) > 0.0 && NoWaits(codec, image, cfg, delta, duration)
    requires AbsInt(delta) < avg && Times(avg as real, 1.0 + cfg.overshoot) <= 20000.0
    ensures var s := Shift(cfg, delta, duration);
      var next := NextDelta(codec, image, cfg, delta, duration);
      && Abs(next + Times(Overshoot(cfg, duration), delta as real)) < 10.0 * s
      && (Overshoot(cfg, duration) == 0.0 ==> Abs(next) < 10.0 * s)
  {
    NextPhase(codec, image, cfg, delta, avg, duration);
    NoWaitsNoRampMs(codec, image, cfg, delta, duration);
    TimesZero(SignedShift(Request(cfg, delta, duration), Shift(cfg, delta, duration)), delta as real);
  }

  lemma TimesZero(x: real, y: real)
    ensures Times(x, 0.0) == 0.0 == Times(0.0, y)
  {
  }

  // ----- at the clocks the registers stand for

  /** The delta that is left at the clocks the programmed registers stand for, instead of those asked for. */
  ghost function RunningDelta<Code>(codec: Codec<Code>, image: Code, cfg: Config, delta: int, duration: int): real
    requires Sound(cfg) && codec.decode(image) > 0.0
  {
    delta as real
      + 1000.0 * PhaseRunning(codec, codec.decode(image), TemporaryTrace(codec, image, cfg, DeltaMs(delta), duration))
  }

  /** What the waits between the steps add to the delta, on the side of the correction. */
  function Excess<Code>(codec: Codec<Code>, image: Code, cfg: Config, delta: int, duration: int): real
    requires Sound(cfg) && codec.decode(image) > 0.0
  {
    1000.0 * Times(SignedShift(Request(cfg, delta, duration), Shift(cfg, delta, duration)),
                   RampMs(codec, image, cfg, delta, duration))
  }

  /** What a write error of `eps` adds up to over the correction: relative to the clock, for as long as it takes. */
  ghost function WriteError<Code>(codec: Codec<Code>, image: Code, cfg: Config, delta: int, duration: int,
                                  eps: real): real
    requires Sound(cfg) && codec.decode(image) > 0.0
  {
    1000.0 * Times(eps / codec.decode(image), TotalMs(TemporaryTrace(codec, image, cfg, DeltaMs(delta), duration)))
  }

  /** The clock in the registers and the clock the correction goes to are in the range of the PHY. */
  ghost predicate ClocksIn<Code>(codec: Codec<Code>, image: Code, cfg: Config, delta: int, duration: int, lo: real,
                                 hi: real)
    requires Sound(cfg) && codec.decode(image) > 0.0
  {
    && lo <= codec.decode(image) < hi
    && lo <= TargetClock(codec, image, Request(cfg, delta, duration), cfg.shift, cfg.shift2, cfg.stepThreshold) < hi
  }

  lemma RunningError<Code(!new)>(codec: Codec<Code>, ok: Code -> bool, lo: real, hi: real, eps: real, image: Code,
                                 cfg: Config, delta: int, duration: int)
    requires Sound(cfg) && codec.decode(image) > 0.0
    requires Quantises(codec, ok, lo, hi, eps) && ok(image) && ClocksIn(codec, image, cfg, delta, duration, lo, hi)
    requires ValidArguments(Request(cfg, delta, duration), cfg.shift, cfg.shift2)
    ensures Abs(RunningDelta(codec, image, cfg, delta, duration) - NextDelta(codec, image, cfg, delta, duration))
         <= WriteError(codec, image, cfg, delta, duration, eps)
  {
    var td, base := Request(cfg, delta, duration), codec.decode(image);
    var hold := Hold(td, cfg.shift, cfg.shift2, cfg.stepThreshold);
    if hold != 0 {
      TargetPositive(codec, image, td, cfg.shift, cfg.shift2, cfg.stepThreshold);
      var shifted := TargetClock(codec, image, td, cfg.shift, cfg.shift2, cfg.stepThreshold);
      CyclePhaseOnHardware(codec, ok, lo, hi, eps, image, base, shifted, cfg.shift, cfg.wait, hold);
    } else {
      TimesZero(eps / base, 0.0);
    }
  }

  /**
   What is really left: minus the overshoot times the delta plus the excess of the ramp waits, to within
   ten microseconds per percent of shift and what the write error adds up to.
   */
  lemma NextPhaseOnHardware<Code(!new)>(codec: Codec<Code>, ok: Code -> bool, lo: real, hi: real, eps: real,
                                        image: Code,
                                        cfg: Config, delta: int, avg: int, duration: int)
    requires Sound(cfg) && codec.decode(image) > 0.0
    requires Quantises(codec, ok, lo, hi, eps) && ok(image) && ClocksIn(codec, image, cfg, delta, duration, lo, hi)
    requires AbsInt(delta) < avg && Times(avg as real, 1.0 + cfg.overshoot) <= 20000.0
    ensures Abs(RunningDelta(codec, image, cfg, delta, duration) + Times(Overshoot(cfg, duration), delta as real)
                - Excess(codec, image, cfg, delta, duration))
          < 10.0 * Shift(cfg, delta, duration) + WriteError(codec, image, cfg, delta, duration, eps)
  {
    GuardPasses(cfg, delta, avg, duration);
    NextPhase(codec, image, cfg, delta, avg, duration);
    RunningError(codec, ok, lo, hi, eps, image, cfg, delta, duration);
  }

  // ----- exactly when the resolution of the hold is met

  /** What the hold gains at the clock the registers really stand for. */
  ghost function Held<Code>(codec: Codec<Code>, image: Code, cfg: Config, delta: int, duration: int): real
    requires Sound(cfg) && codec.decode(image) > 0.0
    requires ValidArguments(Request(cfg, delta, duration), cfg.shift, cfg.shift2)
  {
    var td, base := Request(cfg, delta, duration), codec.decode(image);
    TargetPositive(codec, image, td, cfg.shift, cfg.shift2, cfg.stepThreshold);
    var shifted := TargetClock(codec, image, td, cfg.shift, cfg.shift2, cfg.stepThreshold);
    Gain(base, codec.decode(Programmed(codec, image, RampClocks(base, shifted, cfg.shift))),
         HoldMs(td, Shift(cfg, delta, duration)) as real)
  }

  lemma RunningIsHeld<Code>(codec: Codec<Code>, image: Code, cfg: Config, delta: int, duration: int)
    requires Sound(cfg) && codec.decode(image) > 0.0 && NoWaits(codec, image, cfg, delta, duration)
    requires ValidArguments(Request(cfg, delta, duration), cfg.shift, cfg.shift2)
    ensures RunningDelta(codec, image, cfg, delta, duration)
         == delta as real + 1000.0 * Held(codec, image, cfg, delta, duration)
  {
    var td, base := Request(cfg, delta, duration), codec.decode(image);
    var hold := HoldMs(td, Shift(cfg, delta, duration));
    TargetPositive(codec, image, td, cfg.shift, cfg.shift2, cfg.stepThreshold);
    var shifted := TargetClock(codec, image, td, cfg.shift, cfg.shift2, cfg.stepThreshold);
    if hold != 0 {
      RunningOfUnwaitedCycle(codec, image, base, shifted, cfg.shift, cfg.wait, hold);
    } else {
      NoTimeNoGain(base, codec.decode(Programmed(codec, image, RampClocks(base, shifted, cfg.shift))));
    }
  }

  /**
   Without waits the resolution of the hold is met exactly when what the hold really gains is that close to
   the request.
   */
  lemma ResolutionMetIff<Code>(codec: Codec<Code>, image: Code, cfg: Config, delta: int, avg: int, duration: int)
    requires Sound(cfg) && codec.decode(image) > 0.0 && NoWaits(codec, image, cfg, delta, duration)
    requires AbsInt(delta) < avg && Times(avg as real, 1.0 + cfg.overshoot) <= 20000.0
    ensures ValidArguments(Request(cfg, delta, duration), cfg.shift, cfg.shift2)
    ensures ResolutionMet(codec, image, cfg, delta, duration)
       <==> Abs(Held(codec, image, cfg, delta, duration) - Request(cfg, delta, duration))
            < Shift(cfg, delta, duration) / 100.0
  {
    GuardPasses(cfg, delta, avg, duration);
    RunningIsHeld(codec, image, cfg, delta, duration);
    RequestIsOvershot(cfg, delta, duration);
  }

  /** The property the clocks asked for always have: ten microseconds per percent of shift. */
  ghost predicate ResolutionMet<Code>(codec: Codec<Code>, image: Code, cfg: Config, delta: int, duration: int)
    requires Sound(cfg) && codec.decode(image) > 0.0
  {
    Abs(RunningDelta(codec, image, cfg, delta, duration) + Times(Overshoot(cfg, duration), delta as real))
      < 10.0 * Shift(cfg, delta, duration)
  }

  /** By how much the register written for the shifted clock misses it. */
  function Miss<Code>(codec: Codec<Code>, image: Code, cfg: Config, delta: int, duration: int): real {
    var target := TargetClock(codec, image, Request(cfg, delta, duration), cfg.shift, cfg.shift2, cfg.stepThreshold);
    target - codec.decode(codec.encode(image, target))
  }

  /** What the truncation of the hold leaves of the request. */
  function HoldRest(cfg: Config, delta: int, duration: int): real {
    var td, s := Request(cfg, delta, duration), Shift(cfg, delta, duration);
    td - Times(SignedShift(td, s), HoldMs(td, s) as real)
  }

  lemma MissGain(base: real, shifted: real, running: real, ms: real)
    requires base > 0.0
    ensures Gain(base, running, ms) == Times(Offset(base, shifted), ms) + Times((shifted - running) / base, ms)
  {
    DivTimes(base - running, base);
    DivTimes(base - shifted, base);
    DivTimes(shifted - running, base);
    var x, y, z := (base - running) / base, (base - shifted) / base, (shifted - running) / base;
    assert (x - y - z) * base == 0.0;
    assert x == y + z;
  }

  /** One write each way, so that the wait does not matter. */
  predicate SingleSteps<Code>(codec: Codec<Code>, image: Code, cfg: Config, delta: int, duration: int)
    requires Sound(cfg) && codec.decode(image) > 0.0
  {
    var base := codec.decode(image);
    var shifted := TargetClock(codec, image, Request(cfg, delta, duration), cfg.shift, cfg.shift2, cfg.stepThreshold);
    shifted > 0.0 ==> StepCount(base, shifted, cfg.shift) == 1 && StepCount(shifted, base, cfg.shift) == 1
  }

  lemma HeldOfSingleStep<Code>(codec: Codec<Code>, image: Code, cfg: Config, delta: int, duration: int)
    requires Sound(cfg) && codec.decode(image) > 0.0 && SingleSteps(codec, image, cfg, delta, duration)
    requires ValidArguments(Request(cfg, delta, duration), cfg.shift, cfg.shift2)
    ensures var td, s := Request(cfg, delta, duration), Shift(cfg, delta, duration);
      Held(codec, image, cfg, delta, duration) - td
      == Times(Miss(codec, image, cfg, delta, duration) / codec.decode(image), HoldMs(td, s) as real)
         - HoldRest(cfg, delta, duration)
  {
    var td, s, base := Request(cfg, delta, duration), Shift(cfg, delta, duration), codec.decode(image);
    TargetPositive(codec, image, td, cfg.shift, cfg.shift2, cfg.stepThreshold);
    var shifted := TargetClock(codec, image, td, cfg.shift, cfg.shift2, cfg.stepThreshold);
    assert RampClocks(base, shifted, cfg.shift) == [shifted];
    OneWriteTrace(codec, image, shifted, 0.0);
    MissGain(base, shifted, codec.decode(codec.encode(image, shifted)), HoldMs(td, s) as real);
    OffsetOfShift(base, td, s);
  }

  /**
   For a correction of one write each way the resolution of the hold is met exactly when the miss of that
   write, carried through the hold, stays that close to what the truncation of the hold leaves: a
   condition on the register, the request and the shift alone.
   */
  lemma SingleStepResolutionIff<Code>(codec: Codec<Code>, image: Code, cfg: Config, delta: int, avg: int, duration: int)
    requires Sound(cfg) && codec.decode(image) > 0.0 && SingleSteps(codec, image, cfg, delta, duration)
    requires AbsInt(delta) < avg && Times(avg as real, 1.0 + cfg.overshoot) <= 20000.0
    ensures var td, s := Request(cfg, delta, duration), Shift(cfg, delta, duration);
      ResolutionMet(codec, image, cfg, delta, duration)
      <==> Abs(Times(Miss(codec, image, cfg, delta, duration) / codec.decode(image), HoldMs(td, s) as real)
               - HoldRest(cfg, delta, duration)) < s / 100.0
  {
    GuardPasses(cfg, delta, avg, duration);
    ResolutionMetIff(codec, image, cfg, delta, avg, duration);
    HeldOfSingleStep(codec, image, cfg, delta, duration);
  }

  /** A register that hits the shifted clock always meets it. */
  lemma ExactWriteMeetsResolution<Code>(codec: Codec<Code>, image: Code, cfg: Config, delta: int, avg: int,
                                        duration: int)
    requires Sound(cfg) && codec.decode(image) > 0.0 && SingleSteps(codec, image, cfg, delta, duration)
    requires AbsInt(delta) < avg && Times(avg as real, 1.0 + cfg.overshoot) <= 20000.0
    requires Miss(codec, image, cfg, delta, duration) == 0.0
    ensures ResolutionMet(codec, image, cfg, delta, duration)
  {
    var td, s := Request(cfg, delta, duration), Shift(cfg, delta, duration);
    SingleStepResolutionIff(codec, image, cfg, delta, avg, duration);
    HoldPhase(td, s);
    assert 0.0 / codec.decode(image) == 0.0;
    TimesZero(0.0, HoldMs(td, s) as real);
  }

  lemma OneWriteTrace<Code>(codec: Codec<Code>, image: Code, clock: real, ms: real)
    ensures WriteTrace(codec, image, [clock], ms) == [Dwell(clock, codec.encode(image, clock), ms)]
    ensures Programmed(codec, image, [clock]) == codec.encode(image, clock)
  {
    assert [clock][..0] == [];
    assert Programmed(codec, image, []) == image;
  }

  // ----- from stamps to phase

  /** `x` is within `bound` of a whole number of periods. */
  ghost predicate WithinOfPeriods(x: real, period: int, bound: real) {
    exists k: int :: ApartBy(x, k * period, bound)
  }

  ghost predicate ApartBy(x: real, whole: int, bound: real) {
    Abs(x + whole as real) < bound
  }

  lemma Whole(offset: int, delta: int, period: int, gained: real, left: real, bound: real)
    requires period > 0 && Congruent(delta, offset, period) && Abs(delta as real + gained + left) < bound
    ensures WithinOfPeriods(offset as real + gained + left, period, bound)
  {
    var k := (delta - offset) / period;
    assert offset + k * period == delta;
    assert ApartBy(offset as real + gained + left, k * period, bound);
  }

  /**
   The offset the hardware is left with, modulo the period: minus the overshoot plus the excess, to within
   the bound.
   */
  ghost predicate Closes<Code>(codec: Codec<Code>, image: Code, cfg: Config, duration: int, offset: int, delta: int,
                               period: int, eps: real)
    requires Sound(cfg) && codec.decode(image) > 0.0
  {
    var gained := RunningDelta(codec, image, cfg, delta, duration) - delta as real;
    var wanted := Times(Overshoot(cfg, duration), delta as real) - Excess(codec, image, cfg, delta, duration);
    WithinOfPeriods(offset as real + gained + wanted, period,
                    10.0 * Shift(cfg, delta, duration) + WriteError(codec, image, cfg, delta, duration, eps))
  }

  lemma OffsetCloses<Code(!new)>(codec: Codec<Code>, ok: Code -> bool, lo: real, hi: real, eps: real, image: Code,
                                 cfg: Config, duration: int, offset: int, delta: int, period: int)
    requires Sound(cfg) && codec.decode(image) > 0.0
    requires Quantises(codec, ok, lo, hi, eps) && ok(image) && ClocksIn(codec, image, cfg, delta, duration, lo, hi)
    requires AbsInt(delta) < period && Congruent(delta, offset, period)
    requires Times(period as real, 1.0 + cfg.overshoot) <= 20000.0
    ensures Closes(codec, image, cfg, duration, offset, delta, period, eps)
  {
    NextPhaseOnHardware(codec, ok, lo, hi, eps, image, cfg, delta, period, duration);
    Whole(offset, delta, period, RunningDelta(codec, image, cfg, delta, duration) - delta as real,
          Times(Overshoot(cfg, duration), delta as real) - Excess(codec, image, cfg, delta, duration),
          10.0 * Shift(cfg, delta, duration) + WriteError(codec, image, cfg, delta, duration, eps));
  }

  /** The delta `do_pipe_sync` takes from the stamps of two displays of the same period. */
  lemma MeasuredDelta(p: int, s: int, period: int, np: nat, ns: nat, i: int, j: int)
    requires period > 0 && ns >= 2 && period * (ns - 1) < 0x8000_0000
    requires Nearest(Periodic(p, period, np), Periodic(s, period, ns), i, j)
    ensures Average(Periodic(s, period, ns)) == period
    ensures var delta := Normalized(Periodic(s, period, ns)[i] - Periodic(p, period, np)[j], period);
      && AbsInt(delta) < period && Congruent(delta, s - p, period)
      && (Overlap(s - p, period, np, ns) ==> 2 * AbsInt(delta) <= period)
  {
    PeriodicAverage(s, period, ns);
    PhaseExtraction(p, s, period, np, ns, i, j);
    NormalizedResidue(Periodic(s, period, ns)[i] - Periodic(p, period, np)[j], period);
  }

  /**
   From stamps to phase. Two displays of the same period: the delta `do_pipe_sync` takes from the stamps is
   the true offset modulo the period, at most half a period when the captures overlap, and the offset the
   hardware is left with is, modulo the period, minus the overshoot times that delta plus the excess of
   the ramp waits, to within ten microseconds per percent of shift and the accumulated write error.
   */
  lemma GenlockCloses<Code(!new)>(codec: Codec<Code>, ok: Code -> bool, lo: real, hi: real, eps: real, image: Code,
                                  cfg: Config, duration: int, p: int, s: int, period: int, np: nat, ns: nat,
                                  i: int, j: int)
    requires Sound(cfg) && codec.decode(image) > 0.0 && Quantises(codec, ok, lo, hi, eps) && ok(image)
    requires period > 0 && ns >= 2 && period * (ns - 1) < 0x8000_0000
    requires Times(period as real, 1.0 + cfg.overshoot) <= 20000.0
    requires Nearest(Periodic(p, period, np), Periodic(s, period, ns), i, j)
    ensures Average(Periodic(s, period, ns)) > 0
    ensures var ss := Periodic(s, period, ns);
      var delta := Normalized(ss[i] - Periodic(p, period, np)[j], Average(ss));
      && Congruent(delta, s - p, period)
      && (Overlap(s - p, period, np, ns) ==> 2 * AbsInt(delta) <= period)
      && (ClocksIn(codec, image, cfg, delta, duration, lo, hi) ==>
            Closes(codec, image, cfg, duration, s - p, delta, period, eps))
  {
    MeasuredDelta(p, s, period, np, ns, i, j);
    var delta := Normalized(Periodic(s, period, ns)[i] - Periodic(p, period, np)[j], period);
    if ClocksIn(codec, image, cfg, delta, duration, lo, hi) {
      OffsetCloses(codec, ok, lo, hi, eps, image, cfg, duration, s - p, delta, period);
    }
  }

  // ----- over runs

  /** The synchronisations of these deltas, as the learning sees them. */
  function SyncEvents(deltas: seq<int>, durations: seq<int>): (events: seq<Learning.Event>)
    requires |durations| == |deltas|
    ensures |events| == |deltas|
  {
    seq(|deltas|, k requires 0 <= k < |deltas| => Learning.Event(DeltaMs(deltas[k]), durations[k]))
  }

  /** The registers before synchronisation `k`, with all nudges before it. */
  ghost function ImageAt<Code>(codec: Codec<Code>, image: Code, cfg: Config, deltas: seq<int>, durations: seq<int>,
                               k: nat): Code
    requires k <= |deltas| == |durations|
  {
    Learning.RestAfter(codec, image, cfg, SyncEvents(deltas, durations)[..k])
  }

  lemma ImageNext<Code>(codec: Codec<Code>, image: Code, cfg: Config, deltas: seq<int>, durations: seq<int>, k: nat)
    requires k < |deltas| == |durations|
    ensures ImageAt(codec, image, cfg, deltas, durations, 0) == image
    ensures ImageAt(codec, image, cfg, deltas, durations, k + 1)
         == Rest(codec, ImageAt(codec, image, cfg, deltas, durations, k), cfg, DeltaMs(deltas[k]), durations[k], k)
  {
    var events := SyncEvents(deltas, durations);
    assert events[..k + 1][..k] == events[..k];
  }

  /** The delta that synchronisation `k` finds is read to within `error` of what the one before left, drift included. */
  ghost predicate ReadsLast<Code>(codec: Codec<Code>, image: Code, cfg: Config, deltas: seq<int>, durations: seq<int>,
                                  k: nat, error: real)
    requires Sound(cfg) && 0 < k < |deltas| == |durations|
  {
    var before := ImageAt(codec, image, cfg, deltas, durations, k - 1);
    codec.decode(before) > 0.0
    && Abs(deltas[k] as real - RunningDelta(codec, before, cfg, deltas[k - 1], durations[k - 1])) <= error
  }

  /**
   Synchronisation `k` is possible from these registers, its clocks are in the range of the PHY, and it is
   off by at most `bound` altogether.
   */
  ghost predicate SyncBounded<Code>(codec: Codec<Code>, image: Code, cfg: Config, delta: int, duration: int, k: nat,
                                    avg: int, lo: real, hi: real, eps: real, bound: real)
    requires Sound(cfg)
  {
    && codec.decode(image) > 0.0
    && AbsInt(delta) < avg && ClocksIn(codec, image, cfg, delta, duration, lo, hi)
    && (Learns(cfg, duration, k) && Learning.NudgeActs(cfg, DeltaMs(delta)) ==>
          lo <= ShiftedClock(codec.decode(image), DeltaMs(delta), cfg.learningRate) < hi)
    && 10.0 * Shift(cfg, delta, duration) + WriteError(codec, image, cfg, delta, duration, eps)
       + Abs(Excess(codec, image, cfg, delta, duration)) <= bound
  }

  ghost predicate BoundedAt<Code>(codec: Codec<Code>, image: Code, cfg: Config, deltas: seq<int>, durations: seq<int>,
                                  k: nat, avg: int, lo: real, hi: real, eps: real, bound: real)
    requires Sound(cfg) && k < |deltas| == |durations|
  {
    SyncBounded(codec, ImageAt(codec, image, cfg, deltas, durations, k), cfg, deltas[k], durations[k], k,
                avg, lo, hi, eps, bound)
  }

  lemma {:induction false} ImageStaysOk<Code(!new)>(codec: Codec<Code>, ok: Code -> bool, lo: real, hi: real, eps: real,
                                                    image: Code, cfg: Config, deltas: seq<int>, durations: seq<int>,
                                                    avg: int, bound: real, n: nat)
    requires Sound(cfg) && Quantises(codec, ok, lo, hi, eps) && ok(image) && n <= |deltas| == |durations|
    requires forall k :: 0 <= k < n ==> BoundedAt(codec, image, cfg, deltas, durations, k, avg, lo, hi, eps, bound)
    ensures ok(ImageAt(codec, image, cfg, deltas, durations, n))
  {
    if n > 0 {
      ImageStaysOk(codec, ok, lo, hi, eps, image, cfg, deltas, durations, avg, bound, n - 1);
      assert BoundedAt(codec, image, cfg, deltas, durations, n - 1, avg, lo, hi, eps, bound);
      ImageNext(codec, image, cfg, deltas, durations, n - 1);
      RestIsOk(codec, ok, lo, hi, eps, ImageAt(codec, image, cfg, deltas, durations, n - 1), cfg, deltas[n - 1],
               durations[n - 1], n - 1, avg, bound);
    } else {
      assert SyncEvents(deltas, durations)[..0] == [];
    }
  }

  lemma RestIsOk<Code(!new)>(codec: Codec<Code>, ok: Code -> bool, lo: real, hi: real, eps: real, image: Code,
                             cfg: Config, delta: int, duration: int, k: nat, avg: int, bound: real)
    requires Sound(cfg) && Quantises(codec, ok, lo, hi, eps) && ok(image)
    requires SyncBounded(codec, image, cfg, delta, duration, k, avg, lo, hi, eps, bound)
    ensures ok(Rest(codec, image, cfg, DeltaMs(delta), duration, k))
  {
    Learning.NudgeIsOneWrite(codec, image, cfg, DeltaMs(delta));
  }

  /** `first`, `n` times multiplied by the overshoot with `bound` added. */
  function Decayed(first: real, overshoot: real, bound: real, n: nat): real {
    if n == 0 then first else Times(Decayed(first, overshoot, bound, n - 1), overshoot) + bound
  }

  lemma OneSync<Code(!new)>(codec: Codec<Code>, ok: Code -> bool, lo: real, hi: real, eps: real, image: Code,
                            cfg: Config, delta: int, duration: int, k: nat, avg: int, bound: real)
    requires Sound(cfg) && Quantises(codec, ok, lo, hi, eps) && ok(image)
    requires Times(avg as real, 1.0 + cfg.overshoot) <= 20000.0
    requires SyncBounded(codec, image, cfg, delta, duration, k, avg, lo, hi, eps, bound)
    ensures Abs(RunningDelta(codec, image, cfg, delta, duration)) <= Times(Abs(delta as real), cfg.overshoot) + bound
  {
    NextPhaseOnHardware(codec, ok, lo, hi, eps, image, cfg, delta, avg, duration);
    OvershootAtMost(Overshoot(cfg, duration), cfg.overshoot, delta as real);
  }

  lemma OvershootAtMost(o: real, full: real, d: real)
    requires 0.0 <= o <= full
    ensures Abs(Times(o, d)) <= Times(Abs(d), full)
  {
    MulMonotone(o, full, Abs(d));
    MulMonotone(0.0, o, Abs(d));
    TimesNegated(o, d);
  }

  /**
   Over any run of synchronisations, with whatever nudges the learning makes between them, the delta shrinks
   geometrically by the overshoot, down to the bound of a single one and the reading error.
   */
  lemma {:induction false} RunContracts<Code(!new)>(codec: Codec<Code>, ok: Code -> bool, lo: real, hi: real, eps: real,
                                                    image: Code, cfg: Config, deltas: seq<int>, durations: seq<int>,
                                                    avg: int, bound: real, error: real, n: nat)
    requires Sound(cfg) && Quantises(codec, ok, lo, hi, eps) && ok(image)
    requires Times(avg as real, 1.0 + cfg.overshoot) <= 20000.0 && n < |deltas| == |durations|
    requires forall k :: 0 < k <= n ==> ReadsLast(codec, image, cfg, deltas, durations, k, error)
    requires forall k :: 0 <= k < n ==> BoundedAt(codec, image, cfg, deltas, durations, k, avg, lo, hi, eps, bound)
    ensures Abs(deltas[n] as real) <= Decayed(Abs(deltas[0] as real), cfg.overshoot, bound + error, n)
  {
    if n > 0 {
      RunContracts(codec, ok, lo, hi, eps, image, cfg, deltas, durations, avg, bound, error, n - 1);
      ImageStaysOk(codec, ok, lo, hi, eps, image, cfg, deltas, durations, avg, bound, n - 1);
      var before := ImageAt(codec, image, cfg, deltas, durations, n - 1);
      assert BoundedAt(codec, image, cfg, deltas, durations, n - 1, avg, lo, hi, eps, bound);
      assert ReadsLast(codec, image, cfg, deltas, durations, n, error);
      OneSync(codec, ok, lo, hi, eps, before, cfg, deltas[n - 1], durations[n - 1], n - 1, avg, bound);
      ReadAfter(deltas[n] as real, RunningDelta(codec, before, cfg, deltas[n - 1], durations[n - 1]),
                Abs(deltas[n - 1] as real), Decayed(Abs(deltas[0] as real), cfg.overshoot, bound + error, n - 1),
                cfg.overshoot, bound, error);
    }
  }

  lemma ReadAfter(read: real, left: real, before: real, decayed: real, overshoot: real, bound: real, error: real)
    requires Abs(read - left) <= error && Abs(left) <= Times(before, overshoot) + bound
    requires before <= decayed && overshoot >= 0.0
    ensures Abs(read) <= Times(decayed, overshoot) + (bound + error)
  {
    MulMonotone(before, decayed, overshoot);
  }

  /** With an overshoot below one the bound falls to the sum of the geometric series. */
  lemma {:induction false} DecayedClosed(first: real, overshoot: real, bound: real, n: nat)
    requires 0.0 <= overshoot < 1.0
    ensures var limit := bound / (1.0 - overshoot);
      Decayed(first, overshoot, bound, n) == Times(Power(overshoot, n), first - limit) + limit
  {
    var limit := bound / (1.0 - overshoot);
    DivTimes(bound, 1.0 - overshoot);
    if n == 0 {
      assert Power(overshoot, 0) == 1.0;
    } else {
      DecayedClosed(first, overshoot, bound, n - 1);
      DecayedStep(Power(overshoot, n - 1), first - limit, overshoot, limit, bound);
    }
  }

  lemma DecayedStep(p: real, x: real, overshoot: real, limit: real, bound: real)
    requires limit * (1.0 - overshoot) == bound
    ensures Times(Times(p, x) + limit, overshoot) + bound == Times(Times(overshoot, p), x) + limit
  {
    assert (p * x + limit) * overshoot == overshoot * p * x + limit * overshoot;
  }

  // ----- what the write error can amount to

  const EXAMPLE: Config := Config(100, 0.01, 0.0, 1000, 50, 0.0, 0, 0.0)

  /** A Combo register with 500 in the integer field: 9600 MHz. */
  const AT_9600: nat := 500

  lemma ExampleClock()
    ensures ComboPll.PllClock(AT_9600) == 9600.0
  {
    Bits.GetBitsIsField(AT_9600, 9, 0);
    Bits.GetBitsIsField(AT_9600, 24, 10);
    ComboPll.FieldWidths();
    Bits.SmallWord(AT_9600, 10);
    assert Bits.Low(0, 15) == 0 by {
      Bits.SmallWord(0, 15);
    }
  }

  lemma ExampleWrite()
    ensures ComboPll.PllClock(ComboPll.Encode(AT_9600, 9599.04)) == 9599.0390625
  {
    assert 9599.04 * 1000.0 / 19200.0 == 499.95;
    assert ComboPll.IntegerDivider(9599.04) == 499;
    assert ComboPll.Remainder(9599.04) == 18240;
    assert ComboPll.FractionDivider(9599.04) == 15564;
    ComboPll.PackedFields(AT_9600, 499, 15564);
  }

  lemma ExampleRequest()
    ensures Sound(EXAMPLE) && Request(EXAMPLE, -10000, 1) == 10.0 && Overshoot(EXAMPLE, 1) == 0.0
    ensures Shift(EXAMPLE, -10000, 1) == 0.01 && HoldMs(10.0, 0.01) == 100000
    ensures ShiftedClock(9600.0, 10.0, 0.01) == 9599.04
  {
    assert 10.0 * 100.0 / 0.01 == 100000.0;
  }

  lemma ExampleRamps()
    ensures RampClocks(9600.0, 9599.04, 0.01) == [9599.04] && RampClocks(9599.04, 9600.0, 0.01) == [9600.0]
  {
    assert 0.96 / 9600.0 * 100.0 * 10000.0 == 100.0;
    var q := 0.96 / 9599.04;
    DivTimes(0.96, 9599.04);
    assert 0.0001 < q < 0.00010004;
  }

  lemma ExampleMiss()
    ensures ComboPll.ComboCodec().decode(AT_9600) == 9600.0
    ensures SingleSteps(ComboPll.ComboCodec(), AT_9600, EXAMPLE, -10000, 1)
    ensures Miss(ComboPll.ComboCodec(), AT_9600, EXAMPLE, -10000, 1) == 0.0009375
    ensures HoldRest(EXAMPLE, -10000, 1) == 0.0
  {
    ExampleClock();
    ExampleRequest();
    ExampleRamps();
    ExampleWrite();
    assert |RampClocks(9600.0, 9599.04, 0.01)| == 1 == |RampClocks(9599.04, 9600.0, 0.01)|;
  }

  /**
   On a Combo PHY the condition can fail by far. A request for 10 ms at 9600 MHz with 0.01 percent and no
   overshoot misses the shifted clock by 0.9375 kHz: it is over by more than 9.7 microseconds, a hundred
   times the resolution of its hold.
   */
  lemma ComboWriteErrorExample()
    ensures ComboPll.ComboCodec().decode(AT_9600) > 0.0 && Sound(EXAMPLE)
    ensures Abs(NextDelta(ComboPll.ComboCodec(), AT_9600, EXAMPLE, -10000, 1)) < 0.1
    ensures !ResolutionMet(ComboPll.ComboCodec(), AT_9600, EXAMPLE, -10000, 1)
    ensures RunningDelta(ComboPll.ComboCodec(), AT_9600, EXAMPLE, -10000, 1) > 9.7
  {
    var codec := ComboPll.ComboCodec();
    ExampleMiss();
    ExampleRequest();
    NextPhaseWithoutWaits(codec, AT_9600, EXAMPLE, -10000, 16667, 1);
    SingleStepResolutionIff(codec, AT_9600, EXAMPLE, -10000, 16667, 1);
    RunningIsHeld(codec, AT_9600, EXAMPLE, -10000, 1);
    HeldOfSingleStep(codec, AT_9600, EXAMPLE, -10000, 1);
    assert 0.0009375 / 9600.0 * 100000.0 > 0.0097;
  }
}
