/**
 The class `phys` of `lib/phy.cpp` and the loop of `synchronize_vsync` over the enabled PHYs, run by one
 thread: a timer expiry or Ctrl+C happens at a point the caller names. `Restore` has the interleavings.
 */
module Phy {
  import opened Wrappers
  import opened RealMath
  import opened Codec
  import opened Ramp
  import opened Phase

  /** When, if ever, `lib_client_done` is set during one correction. */
  datatype CtrlC = Never | InRampUp(steps: nat) | WhileHeld(ms: nat) | InRampBack(steps: nat)

  /** How many steps a ramp of `steps` makes when its loop finds the flag set at test `quitAt`. */
  function StepsMade(steps: int, quitAt: Option<nat>): int {
    if quitAt.Some? && quitAt.value < steps then quitAt.value else steps
  }

  /** The larger shift is used when it is given and the difference reaches the threshold (in microseconds). */
  function ChosenShift(timeDiff: real, shift: real, shift2: real, stepThreshold: int): real {
    if shift2 != 0.0 && Abs(timeDiff) * 1000.0 >= stepThreshold as real then shift2 else Abs(shift)
  }

  /** The clock a correction of `image` goes to. */
  function TargetClock<Code>(codec: Codec<Code>, image: Code, timeDiff: real, shift: real, shift2: real,
                             stepThreshold: int): real {
    ShiftedClock(codec.decode(image), timeDiff, ChosenShift(timeDiff, shift, shift2, stepThreshold))
  }

  function Hold(timeDiff: real, shift: real, shift2: real, stepThreshold: int): nat {
    HoldMs(timeDiff, ChosenShift(timeDiff, shift, shift2, stepThreshold))
  }

  /** The argument check of `synchronize_vsync`. */
  predicate ValidArguments(timeDiff: real, shift: real, shift2: real) {
    Abs(timeDiff) < 20.0 && 0.0 <= shift <= 1.0 && 0.0 <= shift2 <= 1.0
  }

  /** A correction writes registers: its hold is not zero and the registers hold a positive clock. */
  predicate Writes<Code>(codec: Codec<Code>, image: Code, timeDiff: real, shift: real, shift2: real,
                         stepThreshold: int) {
    Hold(timeDiff, shift, shift2, stepThreshold) != 0 && codec.decode(image) > 0.0
  }

  /**
   The ramps of a correction do not divide by a zero step: the ramp to the shifted clock when the hold is
   not zero, and the ramp back also when Ctrl+C may ask for it.
   */
  predicate RampsDefined<Code>(codec: Codec<Code>, image: Code, timeDiff: real, shift: real, shift2: real,
                               stepThreshold: int, reset: bool, mayQuit: bool) {
    var base, target := codec.decode(image), TargetClock(codec, image, timeDiff, shift, shift2, stepThreshold);
    var holds := Hold(timeDiff, shift, shift2, stepThreshold) != 0;
    && (holds ==> Defined(base, target, shift))
    && (reset && (holds || mayQuit) ==> Defined(target, base, shift))
  }

  /** A shift to ramp with, or no larger shift to ramp for, is always enough. */
  lemma ShiftSuffices<Code>(codec: Codec<Code>, image: Code, timeDiff: real, shift: real, shift2: real,
                            stepThreshold: int, reset: bool, mayQuit: bool)
    requires ValidArguments(timeDiff, shift, shift2) && (shift > 0.0 || shift2 == 0.0)
    ensures RampsDefined(codec, image, timeDiff, shift, shift2, stepThreshold, reset, mayQuit)
  {
  }

  /** Without a hold there is no ramp to define, unless Ctrl+C asks for one. */
  lemma NoHoldNoRamp<Code>(codec: Codec<Code>, image: Code, timeDiff: real, shift: real, shift2: real,
                           stepThreshold: int, reset: bool, mayQuit: bool)
    requires Hold(timeDiff, shift, shift2, stepThreshold) == 0 && !(reset && mayQuit)
    ensures RampsDefined(codec, image, timeDiff, shift, shift2, stepThreshold, reset, mayQuit)
  {
  }

  lemma TargetPositive<Code>(codec: Codec<Code>, image: Code, timeDiff: real, shift: real, shift2: real,
                             stepThreshold: int)
    requires ValidArguments(timeDiff, shift, shift2)
    ensures TargetClock(codec, image, timeDiff, shift, shift2, stepThreshold) > 0.0 <==> codec.decode(image) > 0.0
  {
    ShiftedClockSign(codec.decode(image), timeDiff, ChosenShift(timeDiff, shift, shift2, stepThreshold));
  }

  lemma ShiftedClockSign(base: real, timeDiff: real, shift: real)
    requires 0.0 <= shift <= 1.0
    ensures ShiftedClock(base, timeDiff, shift) > 0.0 <==> base > 0.0
  {
    var d := Direction(timeDiff);
    assert ShiftedClock(base, timeDiff, shift) == base * (1.0 + shift / 100.0 * d);
    var factor := 1.0 + shift / 100.0 * d;
    assert factor > 0.0;
    FactorOrder(0.0, base, factor);
  }

  /** What a completed correction with reset does to the clock. */
  ghost function CorrectionTrace<Code>(codec: Codec<Code>, image: Code, timeDiff: real, shift: real, shift2: real,
                                       stepThreshold: int, wait: nat): seq<Dwell<Code>>
    requires ValidArguments(timeDiff, shift, shift2)
    requires RampsDefined(codec, image, timeDiff, shift, shift2, stepThreshold, true, false)
  {
    if !Writes(codec, image, timeDiff, shift, shift2, stepThreshold) then []
    else
      TargetPositive(codec, image, timeDiff, shift, shift2, stepThreshold);
      CycleTrace(codec, image, codec.decode(image), TargetClock(codec, image, timeDiff, shift, shift2, stepThreshold),
                 shift, wait, Hold(timeDiff, shift, shift2, stepThreshold))
  }

  /** What a completed correction without reset does to the clock. */
  ghost function NudgeTrace<Code>(codec: Codec<Code>, image: Code, timeDiff: real, shift: real, shift2: real,
                                  stepThreshold: int, wait: nat): seq<Dwell<Code>>
    requires ValidArguments(timeDiff, shift, shift2)
    requires RampsDefined(codec, image, timeDiff, shift, shift2, stepThreshold, false, false)
  {
    if !Writes(codec, image, timeDiff, shift, shift2, stepThreshold) then []
    else
      TargetPositive(codec, image, timeDiff, shift, shift2, stepThreshold);
      var target := TargetClock(codec, image, timeDiff, shift, shift2, stepThreshold);
      RampTrace(codec, image, codec.decode(image), target, shift, wait)
  }

  /** The image a completed correction without reset leaves behind. */
  ghost function Nudged<Code>(codec: Codec<Code>, image: Code, timeDiff: real, shift: real, shift2: real,
                              stepThreshold: int): Code
    requires ValidArguments(timeDiff, shift, shift2)
    requires RampsDefined(codec, image, timeDiff, shift, shift2, stepThreshold, false, false)
  {
    if !Writes(codec, image, timeDiff, shift, shift2, stepThreshold) then image
    else
      TargetPositive(codec, image, timeDiff, shift, shift2, stepThreshold);
      var target := TargetClock(codec, image, timeDiff, shift, shift2, stepThreshold);
      Programmed(codec, image, RampClocks(codec.decode(image), target, shift))
  }

  // ----- which shift is used

  /** Below the threshold a correction is the one without a larger shift, whatever that is. */
  lemma BelowThreshold<Code>(codec: Codec<Code>, image: Code, timeDiff: real, shift: real, shift2: real,
                             stepThreshold: int, wait: nat)
    requires ValidArguments(timeDiff, shift, shift2) && Abs(timeDiff) * 1000.0 < stepThreshold as real
    ensures TargetClock(codec, image, timeDiff, shift, shift2, stepThreshold)
         == TargetClock(codec, image, timeDiff, shift, 0.0, stepThreshold)
         == ShiftedClock(codec.decode(image), timeDiff, shift)
    ensures Hold(timeDiff, shift, shift2, stepThreshold)
         == Hold(timeDiff, shift, 0.0, stepThreshold) == HoldMs(timeDiff, shift)
    ensures RampsDefined(codec, image, timeDiff, shift, shift2, stepThreshold, true, false)
    ensures CorrectionTrace(codec, image, timeDiff, shift, shift2, stepThreshold, wait)
         == CorrectionTrace(codec, image, timeDiff, shift, 0.0, stepThreshold, wait)
    ensures NudgeTrace(codec, image, timeDiff, shift, shift2, stepThreshold, wait)
         == NudgeTrace(codec, image, timeDiff, shift, 0.0, stepThreshold, wait)
    ensures Nudged(codec, image, timeDiff, shift, shift2, stepThreshold)
         == Nudged(codec, image, timeDiff, shift, 0.0, stepThreshold)
  {
  }

  /**
   From the threshold on target and hold are those of the larger shift, when there is one; the steps there and
   back stay limited by the smaller one.
   */
  lemma FromThreshold<Code>(codec: Codec<Code>, image: Code, timeDiff: real, shift: real, shift2: real,
                            stepThreshold: int, wait: nat)
    requires ValidArguments(timeDiff, shift, shift2) && shift2 != 0.0 && Abs(timeDiff) * 1000.0 >= stepThreshold as real
    requires HoldMs(timeDiff, shift2) != 0 && codec.decode(image) > 0.0
    requires RampsDefined(codec, image, timeDiff, shift, shift2, stepThreshold, true, false)
    ensures var base := codec.decode(image);
      var target := ShiftedClock(base, timeDiff, shift2);
      && ValidRequest(base, target, shift) && Defined(base, target, shift) && Defined(target, base, shift)
      && CorrectionTrace(codec, image, timeDiff, shift, shift2, stepThreshold, wait)
         == CycleTrace(codec, image, base, target, shift, wait, HoldMs(timeDiff, shift2))
      && NudgeTrace(codec, image, timeDiff, shift, shift2, stepThreshold, wait)
         == RampTrace(codec, image, base, target, shift, wait)
      && Nudged(codec, image, timeDiff, shift, shift2, stepThreshold)
         == Programmed(codec, image, RampClocks(base, target, shift))
  {
    TargetPositive(codec, image, timeDiff, shift, shift2, stepThreshold);
  }

  /** So a shift that is really larger never holds longer. */
  lemma LargerShiftHoldsNoLonger(timeDiff: real, shift: real, shift2: real, stepThreshold: int)
    requires 0.0 < shift <= shift2
    ensures Hold(timeDiff, shift, shift2, stepThreshold) <= HoldMs(timeDiff, shift)
    ensures Abs(timeDiff) * 1000.0 >= stepThreshold as real ==>
      Hold(timeDiff, shift, shift2, stepThreshold) == HoldMs(timeDiff, shift2)
  {
    QuotientShrinks(Abs(timeDiff) * 100.0, shift, shift2);
    TruncOfQuotient(timeDiff, shift);
    TruncOfQuotient(timeDiff, shift2);
  }

  lemma QuotientShrinks(a: real, x: real, y: real)
    requires a >= 0.0 && 0.0 < x <= y
    ensures 0.0 <= a / y <= a / x
  {
    DivTimes(a, x);
    DivTimes(a, y);
    DivMonotone(0.0, a, y);
    var p, q := a / x, a / y;
    MulMonotone(x, y, q);
    FactorOrder(p, q, x);
  }

  lemma TruncOfQuotient(timeDiff: real, shift: real)
    requires shift > 0.0
    ensures HoldMs(timeDiff, shift) == (Abs(timeDiff) * 100.0 / shift).Floor
  {
    QuotientShrinks(Abs(timeDiff) * 100.0, shift, shift);
    if timeDiff < 0.0 {
      assert timeDiff * 100.0 / shift == -(Abs(timeDiff) * 100.0 / shift);
    }
  }

  // ----- with Ctrl+C

  /** At which test the loop of the ramp to the shifted clock finds the flag set. */
  function UpQuit(event: CtrlC): Option<nat> {
    if event.InRampUp? then Some(event.steps) else None
  }

  /** The steps a ramp makes until its loop finds the flag set. */
  function RampUntil(current: real, target: real, shift: real, quitAt: Option<nat>): seq<real>
    requires ValidRequest(current, target, shift) && Defined(current, target, shift)
  {
    var ramp := RampClocks(current, target, shift);
    ramp[..StepsMade(|ramp|, quitAt)]
  }

  function RampTraceUntil<Code>(codec: Codec<Code>, image: Code, current: real, target: real, shift: real, wait: nat,
                                quitAt: Option<nat>): seq<Dwell<Code>>
    requires ValidRequest(current, target, shift) && Defined(current, target, shift)
  {
    var steps := |RampClocks(current, target, shift)|;
    WriteTrace(codec, image, RampUntil(current, target, shift, quitAt), StepWait(steps, wait))
  }

  lemma WholeRamp<Code>(codec: Codec<Code>, image: Code, current: real, target: real, shift: real, wait: nat)
    requires ValidRequest(current, target, shift) && Defined(current, target, shift)
    ensures RampUntil(current, target, shift, None) == RampClocks(current, target, shift)
    ensures RampTraceUntil(codec, image, current, target, shift, wait, None)
         == RampTrace(codec, image, current, target, shift, wait)
  {
    var ramp := RampClocks(current, target, shift);
    assert ramp[..|ramp|] == ramp;
  }

  /** From the end of the ramp to the shifted clock on: hold it and ramp back, as far as Ctrl+C allows. */
  function HoldTrace<Code>(codec: Codec<Code>, there: Code, shifted: real, base: real, shift: real, wait: nat,
                           hold: nat, event: CtrlC): seq<Dwell<Code>>
    requires ValidRequest(shifted, base, shift) && Defined(shifted, base, shift)
  {
    match event
    case Never => [Dwell(shifted, there, hold as real)] + RampTrace(codec, there, shifted, base, shift, wait)
    case InRampUp(_) => []
    case WhileHeld(ms) => [Dwell(shifted, there, ms as real)]
    case InRampBack(steps) =>
      [Dwell(shifted, there, hold as real)] + RampTraceUntil(codec, there, shifted, base, shift, wait, Some(steps))
  }

  /** At which test the loop of the ramp back finds the flag set. */
  function BackQuit(event: CtrlC): Option<nat> {
    if event.InRampBack? then Some(event.steps) else None
  }

  lemma HoldThenBack<Code>(t: seq<Dwell<Code>>, codec: Codec<Code>, there: Code, shifted: real, base: real, shift: real,
                           wait: nat, hold: nat, event: CtrlC)
    requires ValidRequest(shifted, base, shift) && Defined(shifted, base, shift) && (event.Never? || event.InRampBack?)
    ensures t + HoldTrace(codec, there, shifted, base, shift, wait, hold, event)
         == t + [Dwell(shifted, there, hold as real)]
            + RampTraceUntil(codec, there, shifted, base, shift, wait, BackQuit(event))
  {
    WholeRamp(codec, there, shifted, base, shift, wait);
    var dwell := [Dwell(shifted, there, hold as real)];
    var back := RampTraceUntil(codec, there, shifted, base, shift, wait, BackQuit(event));
    assert t + (dwell + back) == t + dwell + back;
  }

  /** What a correction with reset does to the clock when Ctrl+C comes as `event` says. */
  ghost function CorrectionTraceUntil<Code>(codec: Codec<Code>, image: Code, timeDiff: real, shift: real, shift2: real,
                                            stepThreshold: int, wait: nat, event: CtrlC): seq<Dwell<Code>>
    requires ValidArguments(timeDiff, shift, shift2)
    requires RampsDefined(codec, image, timeDiff, shift, shift2, stepThreshold, true, !event.Never?)
  {
    if event.Never? then CorrectionTrace(codec, image, timeDiff, shift, shift2, stepThreshold, wait)
    else if !Writes(codec, image, timeDiff, shift, shift2, stepThreshold) then []
    else
      TargetPositive(codec, image, timeDiff, shift, shift2, stepThreshold);
      var base, target := codec.decode(image), TargetClock(codec, image, timeDiff, shift, shift2, stepThreshold);
      var there := Programmed(codec, image, RampUntil(base, target, shift, UpQuit(event)));
      RampTraceUntil(codec, image, base, target, shift, wait, UpQuit(event))
      + HoldTrace(codec, there, target, base, shift, wait, Hold(timeDiff, shift, shift2, stepThreshold), event)
  }

  /** What a correction without reset does to the clock. */
  ghost function NudgeTraceUntil<Code>(codec: Codec<Code>, image: Code, timeDiff: real, shift: real, shift2: real,
                                       stepThreshold: int, wait: nat, event: CtrlC): seq<Dwell<Code>>
    requires ValidArguments(timeDiff, shift, shift2)
    requires RampsDefined(codec, image, timeDiff, shift, shift2, stepThreshold, false, !event.Never?)
  {
    if !event.InRampUp? then NudgeTrace(codec, image, timeDiff, shift, shift2, stepThreshold, wait)
    else if !Writes(codec, image, timeDiff, shift, shift2, stepThreshold) then []
    else
      TargetPositive(codec, image, timeDiff, shift, shift2, stepThreshold);
      var target := TargetClock(codec, image, timeDiff, shift, shift2, stepThreshold);
      RampTraceUntil(codec, image, codec.decode(image), target, shift, wait, UpQuit(event))
  }

  /** The image a correction without reset leaves behind: that of the last step it made. */
  ghost function NudgedUntil<Code>(codec: Codec<Code>, image: Code, timeDiff: real, shift: real, shift2: real,
                                   stepThreshold: int, event: CtrlC): Code
    requires ValidArguments(timeDiff, shift, shift2)
    requires RampsDefined(codec, image, timeDiff, shift, shift2, stepThreshold, false, !event.Never?)
  {
    if !event.InRampUp? then Nudged(codec, image, timeDiff, shift, shift2, stepThreshold)
    else if !Writes(codec, image, timeDiff, shift, shift2, stepThreshold) then image
    else
      TargetPositive(codec, image, timeDiff, shift, shift2, stepThreshold);
      var target := TargetClock(codec, image, timeDiff, shift, shift2, stepThreshold);
      Programmed(codec, image, RampUntil(codec.decode(image), target, shift, UpQuit(event)))
  }

  /** The trace of a correction that writes, from a clock that had `t` before it: ramp, then hold and ramp back. */
  lemma CorrectionInParts<Code>(t: seq<Dwell<Code>>, codec: Codec<Code>, image: Code, timeDiff: real, shift: real,
                                shift2: real, stepThreshold: int, wait: nat, event: CtrlC)
    requires ValidArguments(timeDiff, shift, shift2) && Writes(codec, image, timeDiff, shift, shift2, stepThreshold)
    requires RampsDefined(codec, image, timeDiff, shift, shift2, stepThreshold, true, !event.Never?)
    ensures var base, target := codec.decode(image), TargetClock(codec, image, timeDiff, shift, shift2, stepThreshold);
      && ValidRequest(base, target, shift) && ValidRequest(target, base, shift)
      && t + CorrectionTraceUntil(codec, image, timeDiff, shift, shift2, stepThreshold, wait, event)
         == t + RampTraceUntil(codec, image, base, target, shift, wait, UpQuit(event))
            + HoldTrace(codec, Programmed(codec, image, RampUntil(base, target, shift, UpQuit(event))), target, base,
                        shift, wait, Hold(timeDiff, shift, shift2, stepThreshold), event)
  {
    var base, target := codec.decode(image), TargetClock(codec, image, timeDiff, shift, shift2, stepThreshold);
    var hold := Hold(timeDiff, shift, shift2, stepThreshold);
    TargetPositive(codec, image, timeDiff, shift, shift2, stepThreshold);
    WholeRamp(codec, image, base, target, shift, wait);
    var up := RampTraceUntil(codec, image, base, target, shift, wait, UpQuit(event));
    var there := Programmed(codec, image, RampUntil(base, target, shift, UpQuit(event)));
    var down := HoldTrace(codec, there, target, base, shift, wait, hold, event);
    if event.Never? {
      assert CycleTrace(codec, image, base, target, shift, wait, hold) == up + down;
    }
    assert t + (up + down) == t + up + down;
  }

  /** A correction that writes and does not reset is its ramp. */
  lemma NudgeIsRamp<Code>(codec: Codec<Code>, image: Code, timeDiff: real, shift: real, shift2: real,
                          stepThreshold: int, wait: nat, event: CtrlC)
    requires ValidArguments(timeDiff, shift, shift2) && Writes(codec, image, timeDiff, shift, shift2, stepThreshold)
    requires RampsDefined(codec, image, timeDiff, shift, shift2, stepThreshold, false, !event.Never?)
    ensures var base, target := codec.decode(image), TargetClock(codec, image, timeDiff, shift, shift2, stepThreshold);
      && ValidRequest(base, target, shift)
      && NudgeTraceUntil(codec, image, timeDiff, shift, shift2, stepThreshold, wait, event)
         == RampTraceUntil(codec, image, base, target, shift, wait, UpQuit(event))
      && NudgedUntil(codec, image, timeDiff, shift, shift2, stepThreshold, event)
         == Programmed(codec, image, RampUntil(base, target, shift, UpQuit(event)))
  {
    TargetPositive(codec, image, timeDiff, shift, shift2, stepThreshold);
    WholeRamp(codec, image, codec.decode(image), TargetClock(codec, image, timeDiff, shift, shift2, stepThreshold),
              shift, wait);
  }

  lemma OneMoreWrite<Code>(codec: Codec<Code>, image: Code, t: seq<Dwell<Code>>, ramp: seq<real>, i: nat, ms: real)
    requires i < |ramp|
    ensures Programmed(codec, image, ramp[..i + 1]) == codec.encode(Programmed(codec, image, ramp[..i]), ramp[i])
    ensures t + WriteTrace(codec, image, ramp[..i + 1], ms)
         == t + WriteTrace(codec, image, ramp[..i], ms)
            + [Dwell(ramp[i], Programmed(codec, image, ramp[..i + 1]), ms)]
  {
    assert ramp[..i + 1][..i] == ramp[..i];
    var before := WriteTrace(codec, image, ramp[..i], ms);
    var last := [Dwell(ramp[i], Programmed(codec, image, ramp[..i + 1]), ms)];
    assert t + (before + last) == t + before + last;
  }

  class Phy<Code(==)> {
    const codec: Codec<Code>
    const pipe: int

    var hw: Code
    var orig: Code
    var mod: Code

    var done: bool
    var timer: Option<nat>
    var pllFreqOrig: real
    var pllFreqMod: real
    var usedShift: real
    var waitBetweenSteps: nat

    /** Every clock programmed since construction, with how long it was kept. */
    ghost var trace: seq<Dwell<Code>>

    constructor (codec: Codec<Code>, pipe: int, hw: Code)
      ensures this.codec == codec && this.pipe == pipe && this.hw == hw && trace == [] && Idle()
    {
      this.codec, this.pipe, this.hw, orig, mod := codec, pipe, hw, hw, hw;
      done, timer := true, None;
      pllFreqOrig, pllFreqMod, usedShift, waitBetweenSteps := 0.0, 0.0, 0.0, 0;
      trace := [];
    }

    /** Between two corrections nothing is pending, so the wait loop does not hang. */
    predicate Idle()
      reads this
    {
      done && timer.None?
    }

    function PllClock(): real
      reads this
    {
      codec.decode(hw)
    }

    method ReadRegisters()
      modifies this`orig
      ensures orig == hw
    {
      orig := hw;
    }

    method CalculateFeedbackDividers(clock: real)
      modifies this`mod
      ensures mod == codec.encode(hw, clock)
    {
      mod := codec.encode(hw, clock);
    }

    method ProgramMmio(modified: bool)
      modifies this`hw
      ensures hw == if modified then mod else orig
    {
      hw := if modified then mod else orig;
    }

    /** One step: the dividers for `clock`, written and kept for `ms`. */
    method WriteClock(clock: real, commit: bool, ms: real)
      modifies this`hw, this`mod, this`trace
      ensures hw == if commit then codec.encode(old(hw), clock) else old(hw)
      ensures trace == old(trace) + if commit then [Dwell(clock, hw, ms)] else []
    {
      CalculateFeedbackDividers(clock);
      if commit {
        ProgramMmio(true);
        trace := trace + [Dwell(clock, hw, ms)];
      }
    }

    /**
     Either the request is rejected and nothing happens, or the registers go through the ramp, cut
     short where the flag was found set.
     */
    method SetPllClock(current: real, target: real, shift: real, wait: nat, commit: bool,
                       quitAt: Option<nat>) returns (status: Status)
      requires Defined(current, target, shift)
      modifies this`hw, this`mod, this`trace
      ensures status.Success? <==> ValidRequest(current, target, shift)
      ensures status.Failure? || !commit ==> hw == old(hw) && trace == old(trace)
      ensures status.Success? && commit ==>
        && hw == Programmed(codec, old(hw), RampUntil(current, target, shift, quitAt))
        && trace == old(trace) + RampTraceUntil(codec, old(hw), current, target, shift, wait, quitAt)
    {
      if current <= 0.0 || target <= 0.0 || shift < 0.0 {
        return Failure;
      }
      ghost var ramp := RampClocks(current, target, shift);
      StepCountPositive(current, target, shift);
      var percentDiff := PercentDiff(current, target);
      var steps := 1;
      var stepSize := target - current;
      if percentDiff > shift {
        var totalChange := target - current;
        stepSize := FullStep(current, target, shift);
        assert stepSize != 0.0 by { LimitPositive(current, shift); }
        steps := Ceil(Abs(totalChange / stepSize));
        if steps > 1 {
          stepSize := totalChange / steps as real;
        }
      }
      assert steps == StepCount(current, target, shift) == |ramp|;
      assert steps > 1 ==> stepSize == StepSize(current, target, steps);

      var intermediate := current;
      var i := 0;
      ghost var h, t := hw, trace;
      while i < steps && !(quitAt.Some? && quitAt.value <= i)
        invariant 0 <= i <= steps && (quitAt.Some? ==> i <= quitAt.value)
        invariant i < steps ==> intermediate == ClockAt(current, target, steps, i)
        invariant commit ==> hw == Programmed(codec, h, ramp[..i])
        invariant commit ==> trace == t + WriteTrace(codec, h, ramp[..i], StepWait(steps, wait))
        invariant !commit ==> hw == h && trace == t
        decreases steps - i
      {
        if i == steps - 1 {
          intermediate := target;
        } else {
          ClockAtNext(current, target, steps, i);
          intermediate := intermediate + stepSize;
        }
        assert intermediate == ramp[i];
        OneMoreWrite(codec, h, t, ramp, i, StepWait(steps, wait));
        WriteClock(intermediate, commit, StepWait(steps, wait));
        i := i + 1;
      }
      return Success;
    }

    /**
     Reads the registers and, unless the hold comes out as zero or nothing is to be committed, ramps to
     the shifted clock and arms the timer.
     */
    method ProgramPhy(timeDiff: real, shift: real, shift2: real, stepThreshold: int, wait: nat, reset: bool,
                      commit: bool,
                      quitAt: Option<nat>) returns (status: Status)
      requires var s := ChosenShift(timeDiff, shift, shift2, stepThreshold);
        commit && HoldMs(timeDiff, s) != 0 ==> Defined(PllClock(), ShiftedClock(PllClock(), timeDiff, s), Abs(shift))
      modifies this
      ensures orig == old(hw)
      ensures var s := if shift2 == 0.0 || Abs(timeDiff) * 1000.0 < stepThreshold as real then Abs(shift) else shift2;
        var base := old(PllClock());
        var target := ShiftedClock(base, timeDiff, s);
        var hold := HoldMs(timeDiff, s);
        && pllFreqOrig == base && pllFreqMod == target && usedShift == Abs(shift)
        && (status.Failure? <==> commit && hold != 0 && !ValidRequest(base, target, Abs(shift)))
        && (status.Failure? || !commit || hold == 0 ==>
              hw == old(hw) && trace == old(trace) && done == old(done) && timer == old(timer))
        && (status.Success? && commit && hold != 0 ==>
              && hw == Programmed(codec, old(hw), RampUntil(base, target, Abs(shift), quitAt))
              && trace == old(trace) + RampTraceUntil(codec, old(hw), base, target, Abs(shift), wait, quitAt)
              && (reset ==> !done && timer == Some(hold) && waitBetweenSteps == wait)
              && (!reset ==> done == old(done) && timer == old(timer)))
    {
      var rampShift := Abs(shift);
      var s := ChosenShift(timeDiff, rampShift, shift2, stepThreshold);
      var steps := HoldMs(timeDiff, s);
      ReadRegisters();
      var pllClock := PllClock();
      pllFreqOrig := pllClock;
      var newPllClock := ShiftedClock(pllClock, timeDiff, s);
      pllFreqMod := newPllClock;
      usedShift := rampShift;
      if !commit || steps == 0 {
        return Success;
      }
      status := SetPllClock(pllClock, newPllClock, rampShift, wait, commit, quitAt);
      if status.Failure? {
        return Failure;
      }
      if reset {
        done := false;
        waitBetweenSteps := wait;
        timer := Some(steps);
      }
      return Success;
    }

    /** Ramps back as far as the flag allows, then writes the saved registers whatever the ramp did. */
    method ResetPhyRegs(quitAt: Option<nat>)
      requires Defined(pllFreqMod, pllFreqOrig, usedShift)
      modifies this`hw, this`mod, this`trace, this`done, this`timer
      ensures hw == orig && Idle()
      ensures ValidRequest(pllFreqMod, pllFreqOrig, usedShift) ==>
        trace == old(trace)
                 + RampTraceUntil(codec, old(hw), pllFreqMod, pllFreqOrig, usedShift, waitBetweenSteps, quitAt)
      ensures !ValidRequest(pllFreqMod, pllFreqOrig, usedShift) ==> trace == old(trace)
    {
      timer := None;
      var status := SetPllClock(pllFreqMod, pllFreqOrig, usedShift, waitBetweenSteps, true, quitAt);
      ProgramMmio(false);
      done := true;
    }

    /** The hold runs out and the handler ramps back. */
    method ExpireTimer(ctrlC: CtrlC)
      requires timer.Some? && (ctrlC.Never? || ctrlC.InRampBack?) && Defined(pllFreqMod, pllFreqOrig, usedShift)
      modifies this`hw, this`mod, this`trace, this`done, this`timer
      ensures hw == orig && Idle()
      ensures ValidRequest(pllFreqMod, pllFreqOrig, usedShift) ==>
        trace == old(trace) + HoldTrace(codec, old(hw), pllFreqMod, pllFreqOrig, usedShift, waitBetweenSteps,
                                        old(timer).value, ctrlC)
    {
      if ValidRequest(pllFreqMod, pllFreqOrig, usedShift) {
        HoldThenBack(trace, codec, hw, pllFreqMod, pllFreqOrig, usedShift, waitBetweenSteps, timer.value, ctrlC);
      }
      trace := trace + [Dwell(pllFreqMod, hw, timer.value as real)];
      ResetPhyRegs(BackQuit(ctrlC));
    }

    /** With the flag set the saved registers are written without a ramp. */
    method ResetAtOnce()
      requires Defined(pllFreqMod, pllFreqOrig, usedShift)
      modifies this`hw, this`mod, this`trace, this`done, this`timer
      ensures hw == orig && Idle() && trace == old(trace)
    {
      ResetPhyRegs(Some(0));
    }

    /** Waits for the timer handler, or resets at once when Ctrl+C is seen. */
    method WaitUntilDone(ctrlC: CtrlC)
      requires !done ==> timer.Some?
      requires !done || !ctrlC.Never? ==> Defined(pllFreqMod, pllFreqOrig, usedShift)
      modifies this`hw, this`mod, this`trace, this`done, this`timer
      ensures ctrlC.Never? && old(done) ==> hw == old(hw) && trace == old(trace) && done && timer == old(timer)
      ensures !old(done) || !ctrlC.Never? ==> hw == orig && Idle()
      ensures old(done) ==> trace == old(trace)
      ensures !old(done) && ValidRequest(pllFreqMod, pllFreqOrig, usedShift) ==>
        trace == old(trace) + HoldTrace(codec, old(hw), pllFreqMod, pllFreqOrig, usedShift, waitBetweenSteps,
                                        old(timer).value, ctrlC)
    {
      if !done && (ctrlC.Never? || ctrlC.InRampBack?) {
        ExpireTimer(ctrlC);
      } else if !done && ctrlC.WhileHeld? {
        trace := trace + [Dwell(pllFreqMod, hw, ctrlC.ms as real)];
      }
      if !ctrlC.Never? {
        ResetAtOnce();
      }
    }

    /** What `synchronize_vsync` does with one matching PHY. */
    method Correct(timeDiff: real, shift: real, shift2: real, stepThreshold: int, wait: nat, reset: bool, commit: bool,
                   ctrlC: CtrlC) returns (status: Status)
      requires Idle() && ValidArguments(timeDiff, shift, shift2)
      requires commit ==> RampsDefined(codec, hw, timeDiff, shift, shift2, stepThreshold, reset, !ctrlC.Never?)
      modifies this
      ensures Idle()
      ensures status.Failure? <==> commit && Hold(timeDiff, shift, shift2, stepThreshold) != 0 && old(PllClock()) <= 0.0
      ensures reset || !commit || status.Failure? ==> hw == old(hw)
      ensures !commit ==> trace == old(trace)
      ensures commit && reset ==>
        trace == old(trace) + CorrectionTraceUntil(codec, old(hw), timeDiff, shift, shift2, stepThreshold, wait, ctrlC)
      ensures commit && !reset ==>
        && hw == NudgedUntil(codec, old(hw), timeDiff, shift, shift2, stepThreshold, ctrlC)
        && trace == old(trace) + NudgeTraceUntil(codec, old(hw), timeDiff, shift, shift2, stepThreshold, wait, ctrlC)
    {
      TargetPositive(codec, hw, timeDiff, shift, shift2, stepThreshold);
      if commit && Writes(codec, hw, timeDiff, shift, shift2, stepThreshold) {
        if reset {
          CorrectionInParts(trace, codec, hw, timeDiff, shift, shift2, stepThreshold, wait, ctrlC);
        } else {
          NudgeIsRamp(codec, hw, timeDiff, shift, shift2, stepThreshold, wait, ctrlC);
        }
      }
      status := ProgramPhy(timeDiff, shift, shift2, stepThreshold, wait, reset, commit, UpQuit(ctrlC));
      if status.Success? && reset && commit {
        WaitUntilDone(ctrlC);
      }
    }
  }

  const ALL_PIPES := 4

  /** What comes of Ctrl+C for PHY `j` when it comes as `event` during the correction of PHY `quitAt`. */
  function EventAt(j: nat, quitAt: nat, event: CtrlC): CtrlC {
    if j < quitAt then Never else if j == quitAt then event else InRampUp(0)
  }

  /** The list of enabled PHYs of `lib/vsyncalter.cpp`. */
  class VsyncLibrary<Code(==)> {
    const phys: seq<Phy<Code>>

    constructor (phys: seq<Phy<Code>>)
      requires forall j, k :: 0 <= j < k < |phys| ==> phys[j] != phys[k]
      ensures this.phys == phys && Distinct()
    {
      this.phys := phys;
    }

    /** Every entry of the list is an object of its own. */
    predicate Distinct() {
      forall j, k :: 0 <= j < k < |phys| ==> phys[j] != phys[k]
    }

    /** The PHY cannot be programmed because its registers decode to no positive clock. */
    predicate Fails(p: Phy<Code>, timeDiff: real, shift: real, shift2: real, stepThreshold: int, commit: bool)
      reads p
    {
      commit && Hold(timeDiff, shift, shift2, stepThreshold) != 0 && p.PllClock() <= 0.0
    }

    predicate Matches(p: Phy<Code>, pipe: int) {
      pipe == ALL_PIPES || pipe == p.pipe
    }

    predicate Idle()
      reads this, phys
    {
      forall p :: p in phys ==> p.Idle()
    }

    predicate AnyMatches(n: nat, pipe: int)
      requires n <= |phys|
    {
      n > 0 && (AnyMatches(n - 1, pipe) || Matches(phys[n - 1], pipe))
    }

    predicate AnyFails(n: nat, pipe: int, timeDiff: real, shift: real, shift2: real, stepThreshold: int, commit: bool)
      requires n <= |phys|
      reads phys
    {
      n > 0 && (AnyFails(n - 1, pipe, timeDiff, shift, shift2, stepThreshold, commit)
                || (Matches(phys[n - 1], pipe) && Fails(phys[n - 1], timeDiff, shift, shift2, stepThreshold, commit)))
    }

    lemma AnyMatchesIff(n: nat, pipe: int)
      requires n <= |phys|
      ensures AnyMatches(n, pipe) <==> exists j :: 0 <= j < n && Matches(phys[j], pipe)
    {
    }

    lemma AnyFailsIff(n: nat, pipe: int, timeDiff: real, shift: real, shift2: real, stepThreshold: int, commit: bool)
      requires n <= |phys|
      ensures AnyFails(n, pipe, timeDiff, shift, shift2, stepThreshold, commit) <==>
        exists j :: 0 <= j < n
          && Matches(phys[j], pipe) && Fails(phys[j], timeDiff, shift, shift2, stepThreshold, commit)
    {
    }

    /** The ramps the call asks of one PHY are defined. */
    ghost predicate Workable(p: Phy<Code>, hw: Code, pipe: int, event: CtrlC, timeDiff: real, shift: real, shift2: real,
                             stepThreshold: int, reset: bool, commit: bool) {
      Matches(p, pipe) && commit ==>
        RampsDefined(p.codec, hw, timeDiff, shift, shift2, stepThreshold, reset, !event.Never?)
    }

    /**
     What a committed call makes of a PHY that held `hw` and had `trace` before, when Ctrl+C comes as `event`
     says.
     */
    ghost predicate Corrected(p: Phy<Code>, hw: Code, trace: seq<Dwell<Code>>, event: CtrlC, timeDiff: real,
                              shift: real, shift2: real, stepThreshold: int, wait: nat, reset: bool)
      requires ValidArguments(timeDiff, shift, shift2)
      requires RampsDefined(p.codec, hw, timeDiff, shift, shift2, stepThreshold, reset, !event.Never?)
      reads p
    {
      if reset
      then && p.hw == hw
           && p.trace == trace + CorrectionTraceUntil(p.codec, hw, timeDiff, shift, shift2, stepThreshold, wait, event)
      else && p.hw == NudgedUntil(p.codec, hw, timeDiff, shift, shift2, stepThreshold, event)
           && p.trace == trace + NudgeTraceUntil(p.codec, hw, timeDiff, shift, shift2, stepThreshold, wait, event)
    }

    /** What a call makes of any PHY. */
    ghost predicate Handled(p: Phy<Code>, hw: Code, trace: seq<Dwell<Code>>, pipe: int, event: CtrlC, timeDiff: real,
                            shift: real, shift2: real, stepThreshold: int, wait: nat, reset: bool, commit: bool)
      requires ValidArguments(timeDiff, shift, shift2)
      requires Workable(p, hw, pipe, event, timeDiff, shift, shift2, stepThreshold, reset, commit)
      reads p
    {
      if Matches(p, pipe) && commit
      then Corrected(p, hw, trace, event, timeDiff, shift, shift2, stepThreshold, wait, reset)
      else p.hw == hw && p.trace == trace
    }

    method CorrectOne(p: Phy<Code>, pipe: int, timeDiff: real, shift: real, shift2: real, stepThreshold: int, wait: nat,
                      reset: bool, commit: bool, event: CtrlC) returns (status: Status)
      requires p.Idle() && ValidArguments(timeDiff, shift, shift2)
      requires Workable(p, p.hw, pipe, event, timeDiff, shift, shift2, stepThreshold, reset, commit)
      modifies p
      ensures p.Idle()
      ensures Handled(p, old(p.hw), old(p.trace), pipe, event,
                      timeDiff, shift, shift2, stepThreshold, wait, reset, commit)
      ensures status.Failure? <==> Matches(p, pipe) && old(Fails(p, timeDiff, shift, shift2, stepThreshold, commit))
    {
      status := Success;
      if Matches(p, pipe) {
        status := p.Correct(timeDiff, shift, shift2, stepThreshold, wait, reset, commit, event);
      }
    }

    /** The loop over the list, with valid arguments; the PHYs are told apart by their position. */
    method CorrectMatching(timeDiff: real, pipe: int, shift: real, shift2: real, stepThreshold: int, wait: nat,
                           reset: bool, commit: bool, quitAt: nat, event: CtrlC) returns (matched: bool, status: Status)
      requires Distinct() && Idle() && ValidArguments(timeDiff, shift, shift2)
      requires forall j :: 0 <= j < |phys| ==>
        Workable(phys[j], phys[j].hw, pipe, EventAt(j, quitAt, event),
                 timeDiff, shift, shift2, stepThreshold, reset, commit)
      modifies phys
      ensures Idle()
      ensures matched <==> AnyMatches(|phys|, pipe)
      ensures status.Failure? <==> old(AnyFails(|phys|, pipe, timeDiff, shift, shift2, stepThreshold, commit))
      ensures forall j :: 0 <= j < |phys| ==>
        Handled(phys[j], old(phys[j].hw), old(phys[j].trace), pipe, EventAt(j, quitAt, event),
                timeDiff, shift, shift2, stepThreshold, wait, reset, commit)
    {
      matched := false;
      status := Success;
      for i := 0 to |phys|
        invariant Idle()
        invariant matched <==> AnyMatches(i, pipe)
        invariant status.Failure? <==> old(AnyFails(i, pipe, timeDiff, shift, shift2, stepThreshold, commit))
        invariant forall j :: i <= j < |phys| ==> unchanged(phys[j])
        invariant forall j :: 0 <= j < i ==>
          Handled(phys[j], old(phys[j].hw), old(phys[j].trace), pipe, EventAt(j, quitAt, event),
                  timeDiff, shift, shift2, stepThreshold, wait, reset, commit)
      {
        if Matches(phys[i], pipe) {
          matched := true;
        }
        var result := CorrectOne(phys[i], pipe, timeDiff, shift, shift2, stepThreshold, wait, reset, commit,
                                 EventAt(i, quitAt, event));
        if result.Failure? {
          status := Failure;
        }
      }
    }

    /**
     Corrects the PHY on `pipe`, or every PHY in turn when that is 4. Ctrl+C may come during the correction
     of PHY `quitAt`; the flag stays set for the ones after it. Whatever happens, a call that resets leaves
     every register of every PHY as it found it, and no call touches a PHY on another pipe.
     */
    method SynchronizeVsync(timeDiff: real, pipe: int, shift: real, shift2: real, stepThreshold: int, wait: nat,
                            reset: bool, commit: bool, quitAt: nat, event: CtrlC) returns (status: Status)
      requires Distinct() && Idle()
      requires ValidArguments(timeDiff, shift, shift2) && commit ==>
        forall j :: 0 <= j < |phys| && (pipe == 4 || phys[j].pipe == pipe) ==>
          RampsDefined(phys[j].codec, phys[j].hw, timeDiff, shift, shift2, stepThreshold, reset,
                       if j < quitAt then false else if j == quitAt then !event.Never? else true)
      modifies phys
      ensures Idle()
      ensures status.Failure? <==>
        || Abs(timeDiff) >= 20.0 || shift < 0.0 || shift > 1.0 || shift2 < 0.0 || shift2 > 1.0
        || (pipe != 4 && forall j :: 0 <= j < |phys| ==> phys[j].pipe != pipe)
        || |phys| == 0
        || (commit && Hold(timeDiff, shift, shift2, stepThreshold) != 0
            && exists j :: 0 <= j < |phys| && (pipe == 4 || phys[j].pipe == pipe) && old(phys[j].PllClock()) <= 0.0)
      ensures !ValidArguments(timeDiff, shift, shift2) || !commit ==>
        forall j :: 0 <= j < |phys| ==> phys[j].hw == old(phys[j].hw) && phys[j].trace == old(phys[j].trace)
      ensures pipe != 4 ==> forall j :: 0 <= j < |phys| && phys[j].pipe != pipe ==>
        phys[j].hw == old(phys[j].hw) && phys[j].trace == old(phys[j].trace)
      ensures ValidArguments(timeDiff, shift, shift2) && commit ==>
        forall j :: 0 <= j < |phys| && (pipe == 4 || phys[j].pipe == pipe) ==>
          Corrected(phys[j], old(phys[j].hw), old(phys[j].trace),
                    if j < quitAt then Never else if j == quitAt then event else InRampUp(0),
                    timeDiff, shift, shift2, stepThreshold, wait, reset)
    {
      if !ValidArguments(timeDiff, shift, shift2) {
        return Failure;
      }
      AnyMatchesIff(|phys|, pipe);
      AnyFailsIff(|phys|, pipe, timeDiff, shift, shift2, stepThreshold, commit);
      var matched: bool;
      matched, status := CorrectMatching(timeDiff, pipe, shift, shift2, stepThreshold, wait, reset, commit,
                                         quitAt, event);
      if !matched {
        status := Failure;
      }
    }
  }
}
