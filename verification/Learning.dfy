/**
 What a run of synchronisations leaves in the registers: the adaptive learning of
 `perform_synchronization`, followed over any number of readings.
 */
module Learning {
  import opened RealMath
  import opened Codec
  import opened Ramp
  import opened Phase
  import opened Wrappers
  import opened Phy
  import opened Measure
  import opened Hysteresis
  import opened Controller
  import C10Pll
  import ComboPll

  // ----- a nudge is one write

  lemma OneLimit(limit: real)
    requires limit > 0.0
    ensures Ceil(limit / limit) == 1
  {
    DivTimes(limit, limit);
    assert (limit / limit - 1.0) * limit == 0.0;
  }

  /** A ramp whose whole change is exactly the shift takes one step, whichever way the comparison rounds. */
  lemma ShiftIsOneStep(base: real, timeDiff: real, shift: real)
    requires base > 0.0 && 0.0 < shift <= 1.0
    ensures var shifted := ShiftedClock(base, timeDiff, shift);
      shifted > 0.0 && RampClocks(base, shifted, shift) == [shifted]
  {
    var shifted := ShiftedClock(base, timeDiff, shift);
    ShiftedClockSign(base, timeDiff, shift);
    LimitPositive(base, shift);
    assert Abs(shifted - base) == Limit(base, shift) by {
      assert shift * base / 100.0 == Limit(base, shift);
    }
    if Stepped(base, shifted, shift) {
      StepCountIsCeil(base, shifted, shift);
      OneLimit(Limit(base, shift));
    }
    assert RampClocks(base, shifted, shift) == [ClockAt(base, shifted, 1, 1)];
  }

  /** The learning step writes: it is accepted and its hold does not come out as zero. */
  predicate NudgeActs(cfg: Config, deltaMs: real) {
    ValidArguments(deltaMs, cfg.learningRate, 0.0) && Hold(deltaMs, cfg.learningRate, 0.0, cfg.stepThreshold) != 0
  }

  lemma NudgeIsOneWrite<Code>(codec: Codec<Code>, image: Code, cfg: Config, deltaMs: real)
    requires codec.decode(image) > 0.0
    ensures Nudge(codec, image, cfg, deltaMs) ==
      if NudgeActs(cfg, deltaMs)
      then codec.encode(image, ShiftedClock(codec.decode(image), deltaMs, cfg.learningRate))
      else image
  {
    if NudgeActs(cfg, deltaMs) {
      TargetPositive(codec, image, deltaMs, cfg.learningRate, 0.0, cfg.stepThreshold);
      var target := ShiftedClock(codec.decode(image), deltaMs, cfg.learningRate);
      ShiftIsOneStep(codec.decode(image), deltaMs, cfg.learningRate);
      assert [target][..0] == [];
      assert Programmed(codec, image, []) == image;
      assert Programmed(codec, image, [target]) == codec.encode(image, target);
    }
  }

  // ----- runs

  /** A synchronisation: the correction and the time since the one before. */
  datatype Event = Event(deltaMs: real, duration: int)

  /** The registers after the synchronisations, the first of them with a count of 0. */
  ghost function RestAfter<Code>(codec: Codec<Code>, image: Code, cfg: Config, events: seq<Event>): Code {
    if events == [] then image
    else
      var k := |events| - 1;
      Rest(codec, RestAfter(codec, image, cfg, events[..k]), cfg, events[k].deltaMs, events[k].duration, k)
  }

  predicate Acts(cfg: Config, events: seq<Event>, k: nat)
    requires k < |events|
  {
    Learns(cfg, events[k].duration, k) && NudgeActs(cfg, events[k].deltaMs)
  }

  function Nudges(cfg: Config, events: seq<Event>): nat {
    if events == [] then 0
    else Nudges(cfg, events[..|events| - 1]) + (if Acts(cfg, events, |events| - 1) then 1 else 0)
  }

  /** The relative change of one nudge: the learning rate in percent, down when timestamps are to be delayed. */
  function Factor(cfg: Config, deltaMs: real): real {
    1.0 + cfg.learningRate / 100.0 * Direction(deltaMs)
  }

  /** The original clock times the factors of all nudges. */
  function Ideal(f0: real, cfg: Config, events: seq<Event>): real {
    if events == [] then f0
    else
      var k := |events| - 1;
      var f := Ideal(f0, cfg, events[..k]);
      if Acts(cfg, events, k) then Times(f, Factor(cfg, events[k].deltaMs)) else f
  }

  /** eps + eps (1 + r) + ... : `k` writes with an error of `eps` each, carried on by the factors. */
  function Accumulated(cfg: Config, eps: real, k: nat): real {
    if k == 0 then 0.0 else Times(Accumulated(cfg, eps, k - 1), 1.0 + cfg.learningRate / 100.0) + eps
  }

  /** The error of `k` writes as a geometric sum. */
  lemma {:induction false} AccumulatedClosed(cfg: Config, eps: real, k: nat)
    ensures var r := cfg.learningRate / 100.0;
      Times(Accumulated(cfg, eps, k), r) == Times(eps, Power(1.0 + r, k) - 1.0)
    ensures k == 1 ==> Accumulated(cfg, eps, k) == eps
  {
    var r := cfg.learningRate / 100.0;
    if k == 0 {
      assert Power(1.0 + r, 0) == 1.0;
    } else {
      AccumulatedClosed(cfg, eps, k - 1);
      AccumulatedStep(Accumulated(cfg, eps, k - 1), eps, r, Power(1.0 + r, k - 1));
    }
  }

  lemma AccumulatedStep(a: real, eps: real, r: real, p: real)
    requires Times(a, r) == Times(eps, p - 1.0)
    ensures Times(Times(a, 1.0 + r) + eps, r) == Times(eps, Times(1.0 + r, p) - 1.0)
  {
    assert (a * (1.0 + r) + eps) * r == a * r * (1.0 + r) + eps * r;
    assert eps * (p - 1.0) * (1.0 + r) + eps * r == eps * ((1.0 + r) * p - 1.0);
  }

  /** The first two synchronisations never nudge, the others at most once each. */
  lemma {:induction false} NudgesAtMost(cfg: Config, events: seq<Event>)
    ensures Nudges(cfg, events) <= if |events| < 2 then 0 else |events| - 2
  {
    if events != [] {
      NudgesAtMost(cfg, events[..|events| - 1]);
    }
  }

  /** The clocks of the run, with room for the accumulated error, stay in the range of the PHY. */
  ghost predicate IdealInRange(f0: real, cfg: Config, events: seq<Event>, eps: real, lo: real, hi: real) {
    forall k :: 0 <= k <= |events| ==>
      var e := Accumulated(cfg, eps, Nudges(cfg, events[..k]));
      lo + e <= Ideal(f0, cfg, events[..k]) < hi - e
  }

  /**
   Nothing but an acting nudge changes the registers: not the temporary corrections, and not the first two
   synchronisations.
   */
  lemma {:induction false} UnchangedWithoutNudge<Code>(codec: Codec<Code>, image: Code, cfg: Config, events: seq<Event>)
    requires codec.decode(image) > 0.0
    requires |events| <= 2 || Nudges(cfg, events) == 0
    ensures RestAfter(codec, image, cfg, events) == image
  {
    if events == [] {
    } else {
      var k := |events| - 1;
      UnchangedWithoutNudge(codec, image, cfg, events[..k]);
      NudgeIsOneWrite(codec, image, cfg, events[k].deltaMs);
    }
  }

  /** Nor does any run of synchronisations that are each at least the time period apart, or of a rate of nothing. */
  lemma {:induction false} UnchangedWhenLate<Code>(codec: Codec<Code>, image: Code, cfg: Config, events: seq<Event>)
    requires || (forall k :: 0 <= k < |events| ==> events[k].duration >= cfg.timePeriod * 1000)
             || Abs(cfg.learningRate) < 0.000000001
    ensures RestAfter(codec, image, cfg, events) == image
  {
    if events == [] {
    } else {
      UnchangedWhenLate(codec, image, cfg, events[..|events| - 1]);
    }
  }

  /**
   The third synchronisation and every later one that comes earlier than that writes the clock it finds,
   lowered or raised by the learning rate.
   */
  lemma EarlySynchronizationNudges<Code>(codec: Codec<Code>, image: Code, cfg: Config, events: seq<Event>,
                                         before: Code, nudged: real)
    requires |events| >= 3 && 0.000000001 <= cfg.learningRate <= 1.0
    requires before == RestAfter(codec, image, cfg, events[..|events| - 1]) && codec.decode(before) > 0.0
    requires var e, clock := events[|events| - 1], codec.decode(before);
      && e.duration < cfg.timePeriod * 1000 && Abs(e.deltaMs) < 20.0 && HoldMs(e.deltaMs, cfg.learningRate) != 0
      && nudged == if e.deltaMs > 0.0 then clock - cfg.learningRate * clock / 100.0
                   else clock + cfg.learningRate * clock / 100.0
    ensures RestAfter(codec, image, cfg, events) == codec.encode(before, nudged)
  {
    NudgeWrites(codec, before, cfg, events[|events| - 1].deltaMs, nudged);
    assert Learns(cfg, events[|events| - 1].duration, |events| - 1);
  }

  lemma NudgeWrites<Code>(codec: Codec<Code>, image: Code, cfg: Config, deltaMs: real, nudged: real)
    requires 0.0 <= cfg.learningRate <= 1.0 && Abs(deltaMs) < 20.0 && HoldMs(deltaMs, cfg.learningRate) != 0
    requires codec.decode(image) > 0.0
    requires var clock := codec.decode(image);
      nudged == if deltaMs > 0.0 then clock - cfg.learningRate * clock / 100.0
                else clock + cfg.learningRate * clock / 100.0
    ensures Nudge(codec, image, cfg, deltaMs) == codec.encode(image, nudged)
  {
    assert NudgeActs(cfg, deltaMs);
    NudgeIsOneWrite(codec, image, cfg, deltaMs);
    OneWayOrTheOther(codec.decode(image), cfg, deltaMs);
    assert ShiftedClock(codec.decode(image), deltaMs, cfg.learningRate) == nudged;
  }

  lemma OneWayOrTheOther(clock: real, cfg: Config, deltaMs: real)
    ensures ShiftedClock(clock, deltaMs, cfg.learningRate)
         == if deltaMs > 0.0 then clock - cfg.learningRate * clock / 100.0 else clock + cfg.learningRate * clock / 100.0
  {
    var change := cfg.learningRate * clock / 100.0;
    assert change * Direction(deltaMs) == if deltaMs > 0.0 then -change else change;
  }

  lemma ShiftedIsFactor(base: real, cfg: Config, deltaMs: real)
    ensures ShiftedClock(base, deltaMs, cfg.learningRate) == Times(base, Factor(cfg, deltaMs))
  {
  }

  lemma ScaledDifference(x: real, y: real, f: real, g: real, e: real)
    requires 0.0 <= f <= g && Abs(x - y) <= e
    ensures Abs(Times(x, f) - Times(y, f)) <= Times(e, g)
  {
    MulMonotone(x - y, e, f);
    MulMonotone(y - x, e, f);
    assert Times(x, f) - Times(y, f) == (x - y) * f && (y - x) * f == -((x - y) * f);
    MulMonotone(f, g, e);
    assert e * f == f * e && g * e == Times(e, g);
  }

  lemma FactorError(x: real, y: real, cfg: Config, deltaMs: real, e: real)
    requires 0.0 <= cfg.learningRate <= 1.0 && Abs(x - y) <= e
    ensures Abs(Times(x, Factor(cfg, deltaMs)) - Times(y, Factor(cfg, deltaMs)))
         <= Times(e, 1.0 + cfg.learningRate / 100.0)
  {
    ScaledDifference(x, y, Factor(cfg, deltaMs), 1.0 + cfg.learningRate / 100.0, e);
  }

  /**
   The last nudge of a run, when the run before it kept to its ideal clock: the request is in range and near
   the ideal.
   */
  lemma LastRequest<Code>(codec: Codec<Code>, image: Code, cfg: Config, events: seq<Event>, eps: real, lo: real,
                          hi: real)
    requires events != [] && lo > 0.0 && eps >= 0.0 && Acts(cfg, events, |events| - 1)
    requires IdealInRange(codec.decode(image), cfg, events, eps, lo, hi)
    requires var before := events[..|events| - 1];
      Abs(codec.decode(RestAfter(codec, image, cfg, before)) - Ideal(codec.decode(image), cfg, before))
      <= Accumulated(cfg, eps, Nudges(cfg, before))
    ensures var k := |events| - 1;
      var rest := RestAfter(codec, image, cfg, events[..k]);
      var request := Times(codec.decode(rest), Factor(cfg, events[k].deltaMs));
      && lo <= request < hi && RestAfter(codec, image, cfg, events) == codec.encode(rest, request)
      && Abs(request - Ideal(codec.decode(image), cfg, events)) <= Accumulated(cfg, eps, Nudges(cfg, events)) - eps
  {
    var k := |events| - 1;
    var f0, before, deltaMs := codec.decode(image), events[..k], events[k].deltaMs;
    var rest := RestAfter(codec, image, cfg, before);
    PrefixInRange(f0, cfg, events, eps, lo, hi);
    NudgeIsOneWrite(codec, rest, cfg, deltaMs);
    ShiftedIsFactor(codec.decode(rest), cfg, deltaMs);
    FactorError(codec.decode(rest), Ideal(f0, cfg, before), cfg, deltaMs, Accumulated(cfg, eps, Nudges(cfg, before)));
  }

  /**
   After any run of synchronisations the clock in the registers is the original clock times the factors
   of the nudges that acted, up to the accumulated error of their writes.
   */
  lemma {:induction false} LearnedClock<Code(!new)>(codec: Codec<Code>, ok: Code -> bool, lo: real, hi: real, eps: real,
                                                    image: Code, cfg: Config, events: seq<Event>)
    requires Quantises(codec, ok, lo, hi, eps) && ok(image) && lo > 0.0 && eps >= 0.0
    requires IdealInRange(codec.decode(image), cfg, events, eps, lo, hi)
    ensures var rest := RestAfter(codec, image, cfg, events);
      && ok(rest)
      && Abs(codec.decode(rest) - Ideal(codec.decode(image), cfg, events)) <= Accumulated(cfg, eps, Nudges(cfg, events))
  {
    if events == [] {
    } else {
      var k := |events| - 1;
      PrefixInRange(codec.decode(image), cfg, events, eps, lo, hi);
      LearnedClock(codec, ok, lo, hi, eps, image, cfg, events[..k]);
      if Acts(cfg, events, k) {
        LastRequest(codec, image, cfg, events, eps, lo, hi);
      } else {
        UnchangedByOther(codec, image, cfg, events);
      }
    }
  }

  lemma WrittenBelow<Code(!new)>(codec: Codec<Code>, ok: Code -> bool, lo: real, hi: real, eps: real, image: Code,
                                 x: real)
    requires QuantisesBelow(codec, ok, lo, hi, eps) && ok(image) && lo <= x < hi
    ensures codec.decode(codec.encode(image, x)) <= x
  {
  }

  lemma FactorNeverAbove(x: real, y: real, cfg: Config, deltaMs: real)
    requires 0.0 <= cfg.learningRate <= 1.0 && x <= y
    ensures Times(x, Factor(cfg, deltaMs)) <= Times(y, Factor(cfg, deltaMs))
  {
    MulMonotone(x, y, Factor(cfg, deltaMs));
  }

  /** The last nudge of such a run keeps the clock at or below its ideal. */
  lemma LastBelow<Code(!new)>(codec: Codec<Code>, ok: Code -> bool, lo: real, hi: real, eps: real,
                              image: Code, cfg: Config, events: seq<Event>)
    requires QuantisesBelow(codec, ok, lo, hi, eps) && lo > 0.0 && eps >= 0.0
    requires events != [] && Acts(cfg, events, |events| - 1)
    requires IdealInRange(codec.decode(image), cfg, events, eps, lo, hi)
    requires var before := events[..|events| - 1];
      var rest, ideal := RestAfter(codec, image, cfg, before), Ideal(codec.decode(image), cfg, before);
      ok(rest) && ideal - Accumulated(cfg, eps, Nudges(cfg, before)) <= codec.decode(rest) <= ideal
    ensures codec.decode(RestAfter(codec, image, cfg, events)) <= Ideal(codec.decode(image), cfg, events)
  {
    var k := |events| - 1;
    var rest := RestAfter(codec, image, cfg, events[..k]);
    LastRequest(codec, image, cfg, events, eps, lo, hi);
    WrittenBelow(codec, ok, lo, hi, eps, rest, Times(codec.decode(rest), Factor(cfg, events[k].deltaMs)));
    FactorNeverAbove(codec.decode(rest), Ideal(codec.decode(image), cfg, events[..k]), cfg, events[k].deltaMs);
  }

  /** On a PHY that never programs more than it is asked for, the learned clock is never above its ideal. */
  lemma {:induction false} LearnedBelow<Code(!new)>(codec: Codec<Code>, ok: Code -> bool, lo: real, hi: real, eps: real,
                                                    image: Code, cfg: Config, events: seq<Event>)
    requires QuantisesBelow(codec, ok, lo, hi, eps) && ok(image) && lo > 0.0 && eps >= 0.0
    requires IdealInRange(codec.decode(image), cfg, events, eps, lo, hi)
    ensures var rest, ideal := RestAfter(codec, image, cfg, events), Ideal(codec.decode(image), cfg, events);
      && ok(rest)
      && ideal - Accumulated(cfg, eps, Nudges(cfg, events)) <= codec.decode(rest) <= ideal
  {
    BelowIsWithin(codec, ok, lo, hi, eps);
    LearnedClock(codec, ok, lo, hi, eps, image, cfg, events);
    if events == [] {
    } else {
      var k := |events| - 1;
      PrefixInRange(codec.decode(image), cfg, events, eps, lo, hi);
      LearnedBelow(codec, ok, lo, hi, eps, image, cfg, events[..k]);
      if Acts(cfg, events, k) {
        LastBelow(codec, ok, lo, hi, eps, image, cfg, events);
      } else {
        UnchangedByOther(codec, image, cfg, events);
      }
    }
  }

  lemma UnchangedByOther<Code>(codec: Codec<Code>, image: Code, cfg: Config, events: seq<Event>)
    requires events != [] && !Acts(cfg, events, |events| - 1)
    requires codec.decode(RestAfter(codec, image, cfg, events[..|events| - 1])) > 0.0
    ensures RestAfter(codec, image, cfg, events) == RestAfter(codec, image, cfg, events[..|events| - 1])
  {
    var k := |events| - 1;
    NudgeIsOneWrite(codec, RestAfter(codec, image, cfg, events[..k]), cfg, events[k].deltaMs);
  }

  lemma PrefixInRange(f0: real, cfg: Config, events: seq<Event>, eps: real, lo: real, hi: real)
    requires events != [] && IdealInRange(f0, cfg, events, eps, lo, hi)
    ensures var before := events[..|events| - 1];
      && IdealInRange(f0, cfg, before, eps, lo, hi)
      && (var e := Accumulated(cfg, eps, Nudges(cfg, before)); lo + e <= Ideal(f0, cfg, before) < hi - e)
      && (var e := Accumulated(cfg, eps, Nudges(cfg, events)); lo + e <= Ideal(f0, cfg, events) < hi - e)
  {
    var before := events[..|events| - 1];
    forall k | 0 <= k <= |before|
      ensures var e := Accumulated(cfg, eps, Nudges(cfg, before[..k])); lo + e <= Ideal(f0, cfg, before[..k]) < hi - e
    {
      assert before[..k] == events[..k];
    }
    assert before[..|before|] == before && events[..|events|] == events;
  }

  // ----- from readings to synchronisations

  /** A reading that passed the tolerance check: the normalised delta and the time since the last synchronisation. */
  datatype Reading = Reading(delta: int, duration: int)

  function Overs(cfg: Config, readings: seq<Reading>): (overs: seq<bool>)
    ensures |overs| == |readings| && forall k :: 0 <= k < |readings| ==> overs[k] == Over(cfg, readings[k].delta)
  {
    seq(|readings|, k requires 0 <= k < |readings| => Over(cfg, readings[k].delta))
  }

  /** The synchronisations the readings bring about. */
  function Events(cfg: Config, readings: seq<Reading>): seq<Event> {
    if readings == [] then []
    else
      var k := |readings| - 1;
      Events(cfg, readings[..k])
      + if OutcomeAt(Overs(cfg, readings), k).Synced?
        then [Event(DeltaMs(readings[k].delta), readings[k].duration)]
        else []
  }

  /** The registers after the readings, each handled as `PipeController.DoPipeSync` promises. */
  ghost function RestAfterReadings<Code>(codec: Codec<Code>, image: Code, cfg: Config, readings: seq<Reading>): Code {
    if readings == [] then image
    else
      var k := |readings| - 1;
      var before := RestAfterReadings(codec, image, cfg, readings[..k]);
      var stats := StatsAfter(Overs(cfg, readings[..k]));
      if Decide(stats, Over(cfg, readings[k].delta)).Synced?
      then Rest(codec, before, cfg, DeltaMs(readings[k].delta), readings[k].duration, stats.syncCount)
      else before
  }

  lemma OversPrefix(cfg: Config, readings: seq<Reading>)
    requires readings != []
    ensures var k := |readings| - 1;
      Overs(cfg, readings) == Overs(cfg, readings[..k]) + [Over(cfg, readings[k].delta)]
  {
  }

  lemma StatsAfterOne(overs: seq<bool>, over: bool)
    ensures StatsAfter(overs + [over]) == NextStats(StatsAfter(overs), over)
    ensures OutcomeAt(overs + [over], |overs|) == Decide(StatsAfter(overs), over)
  {
    assert (overs + [over])[..|overs|] == overs;
  }

  lemma RestAfterOne<Code>(codec: Codec<Code>, image: Code, cfg: Config, events: seq<Event>, e: Event)
    ensures RestAfter(codec, image, cfg, events + [e])
         == Rest(codec, RestAfter(codec, image, cfg, events), cfg, e.deltaMs, e.duration, |events|)
  {
    assert (events + [e])[..|events|] == events;
  }

  /** How many events there are is what the counter of the pipe says. */
  lemma {:induction false} EventsCounted(cfg: Config, readings: seq<Reading>)
    ensures |Events(cfg, readings)| == StatsAfter(Overs(cfg, readings)).syncCount
  {
    if readings == [] {
      assert Overs(cfg, readings) == [];
    } else {
      var k := |readings| - 1;
      EventsCounted(cfg, readings[..k]);
      OversPrefix(cfg, readings);
      StatsAfterOne(Overs(cfg, readings[..k]), Over(cfg, readings[k].delta));
    }
  }

  /**
   The registers after any readings depend on the synchronisations alone, and those are numbered by the
   counter of the pipe: what `LearnedClock` says of events holds of every run of the controller.
   */
  lemma {:induction false} ReadingsAreEvents<Code>(codec: Codec<Code>, image: Code, cfg: Config, readings: seq<Reading>)
    ensures RestAfterReadings(codec, image, cfg, readings) == RestAfter(codec, image, cfg, Events(cfg, readings))
  {
    if readings == [] {
    } else {
      var k := |readings| - 1;
      var before := Events(cfg, readings[..k]);
      ReadingsAreEvents(codec, image, cfg, readings[..k]);
      EventsCounted(cfg, readings[..k]);
      OversPrefix(cfg, readings);
      StatsAfterOne(Overs(cfg, readings[..k]), Over(cfg, readings[k].delta));
      var e := Event(DeltaMs(readings[k].delta), readings[k].duration);
      if OutcomeAt(Overs(cfg, readings), k).Synced? {
        assert Events(cfg, readings) == before + [e];
        RestAfterOne(codec, image, cfg, before, e);
      } else {
        assert Events(cfg, readings) == before;
      }
    }
  }

  /** The clock learned from any readings, on any PHY with a bounded write error. */
  lemma LearnedFromReadings<Code(!new)>(codec: Codec<Code>, ok: Code -> bool, lo: real, hi: real, eps: real,
                                        image: Code, cfg: Config, readings: seq<Reading>)
    requires Quantises(codec, ok, lo, hi, eps) && ok(image) && lo > 0.0 && eps >= 0.0
    requires IdealInRange(codec.decode(image), cfg, Events(cfg, readings), eps, lo, hi)
    ensures var rest := RestAfterReadings(codec, image, cfg, readings);
      var events := Events(cfg, readings);
      && ok(rest)
      && Abs(codec.decode(rest) - Ideal(codec.decode(image), cfg, events)) <= Accumulated(cfg, eps, Nudges(cfg, events))
  {
    ReadingsAreEvents(codec, image, cfg, readings);
    LearnedClock(codec, ok, lo, hi, eps, image, cfg, Events(cfg, readings));
  }

  /** The same from below, on a PHY that never programs more than it is asked for. */
  lemma LearnedBelowFromReadings<Code(!new)>(codec: Codec<Code>, ok: Code -> bool, lo: real, hi: real, eps: real,
                                             image: Code, cfg: Config, readings: seq<Reading>)
    requires QuantisesBelow(codec, ok, lo, hi, eps) && ok(image) && lo > 0.0 && eps >= 0.0
    requires IdealInRange(codec.decode(image), cfg, Events(cfg, readings), eps, lo, hi)
    ensures var events := Events(cfg, readings);
      var ideal := Ideal(codec.decode(image), cfg, events);
      ideal - Accumulated(cfg, eps, Nudges(cfg, events))
      <= codec.decode(RestAfterReadings(codec, image, cfg, readings)) <= ideal
  {
    ReadingsAreEvents(codec, image, cfg, readings);
    LearnedBelow(codec, ok, lo, hi, eps, image, cfg, Events(cfg, readings));
  }

  // ----- the controller itself

  /** The stamps of one iteration, and the time since the last synchronisation. */
  datatype Capture = Capture(secondary: seq<int>, primary: seq<int>, duration: int)

  ghost predicate Complete(c: Capture) {
    && c.secondary != [] && Stamps(c.secondary) && Average(c.secondary) > 0
    && c.primary != [] && Stamps(c.primary)
  }

  /** The closest stamps are within the tolerance and their normalised delta is the reading. */
  ghost predicate ReadsAs(c: Capture, r: Reading)
    requires Complete(c)
  {
    && r.duration == c.duration
    && forall i, j :: Nearest(c.primary, c.secondary, i, j) ==>
         var raw := c.secondary[i] - c.primary[j];
         AbsInt(raw) <= CLOCK_SYNC_TOLERANCE_US && r.delta == Normalized(raw, Average(c.secondary))
  }

  lemma NextReading(cfg: Config, readings: seq<Reading>, k: nat)
    requires k < |readings|
    ensures StatsAfter(Overs(cfg, readings[..k + 1]))
         == NextStats(StatsAfter(Overs(cfg, readings[..k])), Over(cfg, readings[k].delta))
  {
    assert readings[..k + 1][..k] == readings[..k];
    OversPrefix(cfg, readings[..k + 1]);
    StatsAfterOne(Overs(cfg, readings[..k]), Over(cfg, readings[k].delta));
  }

  lemma NextRest<Code>(codec: Codec<Code>, image: Code, cfg: Config, readings: seq<Reading>, k: nat, stats: Stats)
    requires k < |readings| && stats == StatsAfter(Overs(cfg, readings[..k]))
    ensures var before := RestAfterReadings(codec, image, cfg, readings[..k]);
      RestAfterReadings(codec, image, cfg, readings[..k + 1])
      == if Decide(stats, Over(cfg, readings[k].delta)).Synced?
         then Rest(codec, before, cfg, DeltaMs(readings[k].delta), readings[k].duration, stats.syncCount)
         else before
  {
    assert readings[..k + 1][..k] == readings[..k];
  }

  /** One iteration of the loop of a pipe, for a capture that is read as `r`. */
  method Iterate<Code(==)>(c: PipeController<Code>, capture: Capture, ghost r: Reading)
    requires c.Ready() && Complete(capture) && ReadsAs(capture, r)
    modifies c`stats, c.library.phys
    ensures c.Ready() && c.stats == NextStats(old(c.stats), Over(c.cfg, r.delta))
    ensures forall k :: 0 <= k < |c.library.phys| && (c.pipe == 4 || c.library.phys[k].pipe == c.pipe) ==>
      var p := c.library.phys[k];
      p.hw == if Decide(old(c.stats), Over(c.cfg, r.delta)).Synced?
              then Rest(p.codec, old(p.hw), c.cfg, DeltaMs(r.delta), r.duration, old(c.stats).syncCount)
              else old(p.hw)
    ensures forall k :: 0 <= k < |c.library.phys| && c.pipe != 4 && c.library.phys[k].pipe != c.pipe ==>
      c.library.phys[k].hw == old(c.library.phys[k].hw)
  {
    var status := c.DoPipeSync(Some(capture.secondary), Some(capture.primary), capture.duration, true, NoQuit);
    ghost var i, j :| Nearest(capture.primary, capture.secondary, i, j);
    ghost var raw := capture.secondary[i] - capture.primary[j];
    assert AbsInt(raw) <= CLOCK_SYNC_TOLERANCE_US && r.delta == Normalized(raw, Average(capture.secondary));
  }

  /**
   The loop of a pipe over any captures: afterwards the counters are those of the readings and every PHY of
   the pipe holds what `LearnedFromReadings` speaks of; the PHYs of other pipes are untouched.
   */
  method RunPipe<Code(==)>(c: PipeController<Code>, captures: seq<Capture>, ghost readings: seq<Reading>)
    requires c.Ready() && c.stats == FRESH && |readings| == |captures|
    requires forall k :: 0 <= k < |captures| ==> Complete(captures[k]) && ReadsAs(captures[k], readings[k])
    modifies c`stats, c.library.phys
    ensures c.Ready() && c.stats == StatsAfter(Overs(c.cfg, readings))
    ensures forall j :: 0 <= j < |c.library.phys| && (c.pipe == 4 || c.library.phys[j].pipe == c.pipe) ==>
      c.library.phys[j].hw
      == RestAfterReadings(c.library.phys[j].codec, old(c.library.phys[j].hw), c.cfg, readings)
    ensures forall j :: 0 <= j < |c.library.phys| && c.pipe != 4 && c.library.phys[j].pipe != c.pipe ==>
      c.library.phys[j].hw == old(c.library.phys[j].hw)
  {
    assert Overs(c.cfg, readings[..0]) == [];
    for k := 0 to |captures|
      invariant c.Ready() && c.stats == StatsAfter(Overs(c.cfg, readings[..k]))
      invariant forall j :: 0 <= j < |c.library.phys| && (c.pipe == 4 || c.library.phys[j].pipe == c.pipe) ==>
        c.library.phys[j].hw
        == RestAfterReadings(c.library.phys[j].codec, old(c.library.phys[j].hw), c.cfg, readings[..k])
      invariant forall j :: 0 <= j < |c.library.phys| && c.pipe != 4 && c.library.phys[j].pipe != c.pipe ==>
        c.library.phys[j].hw == old(c.library.phys[j].hw)
    {
      NextReading(c.cfg, readings, k);
      forall j | 0 <= j < |c.library.phys|
        ensures var p := c.library.phys[j];
          var before := RestAfterReadings(p.codec, old(p.hw), c.cfg, readings[..k]);
          RestAfterReadings(p.codec, old(p.hw), c.cfg, readings[..k + 1])
          == if Decide(c.stats, Over(c.cfg, readings[k].delta)).Synced?
             then Rest(p.codec, before, c.cfg, DeltaMs(readings[k].delta), readings[k].duration, c.stats.syncCount)
             else before
      {
        NextRest(c.library.phys[j].codec, old(c.library.phys[j].hw), c.cfg, readings, k, c.stats);
      }
      Iterate(c, captures[k], readings[k]);
    }
    assert readings[..|captures|] == readings;
  }

  // ----- on a Combo PHY

  lemma ComboQuantisesAbove(lo: real)
    requires lo > 0.0
    ensures QuantisesBelow(ComboPll.ComboCodec(), (image: nat) => true, lo, ComboPll.MAX_CLOCK,
                           ComboPll.LOSS_KHZ / 1000.0)
  {
    ComboPll.ComboQuantises();
  }

  /**
   On a Combo PHY the clock learned from any readings is never above its ideal, and below it by at most
   what one write can lose, carried on by the factors, for every nudge.
   */
  lemma ComboLearnedClock(cfgcr0: nat, cfg: Config, readings: seq<Reading>, lo: real)
    requires lo > 0.0
    requires IdealInRange(ComboPll.ComboCodec().decode(cfgcr0), cfg, Events(cfg, readings),
                          ComboPll.LOSS_KHZ / 1000.0, lo, ComboPll.MAX_CLOCK)
    ensures var codec := ComboPll.ComboCodec();
      var events := Events(cfg, readings);
      var ideal := Ideal(codec.decode(cfgcr0), cfg, events);
      ideal - Accumulated(cfg, ComboPll.LOSS_KHZ / 1000.0, Nudges(cfg, events))
      <= codec.decode(RestAfterReadings(codec, cfgcr0, cfg, readings)) <= ideal
  {
    ComboQuantisesAbove(lo);
    LearnedBelowFromReadings(ComboPll.ComboCodec(), (image: nat) => true, lo, ComboPll.MAX_CLOCK,
                             ComboPll.LOSS_KHZ / 1000.0, cfgcr0, cfg, readings);
  }

  /** The raise an upward nudge asks for, in MHz. */
  function Raise(clock: real, cfg: Config): real {
    cfg.learningRate * clock / 100.0
  }

  /** A nudge on a Combo PHY in terms of its encoder. */
  lemma ComboNudge(cfgcr0: nat, cfg: Config, deltaMs: real)
    requires ComboPll.PllClock(cfgcr0) > 0.0
    ensures var shifted := ShiftedClock(ComboPll.PllClock(cfgcr0), deltaMs, cfg.learningRate);
      && (NudgeActs(cfg, deltaMs) ==> shifted > 0.0)
      && Nudge(ComboPll.ComboCodec(), cfgcr0, cfg, deltaMs)
         == if NudgeActs(cfg, deltaMs) then ComboPll.EncodeAny(cfgcr0, shifted) else cfgcr0
  {
    NudgeIsOneWrite(ComboPll.ComboCodec(), cfgcr0, cfg, deltaMs);
    if NudgeActs(cfg, deltaMs) {
      ShiftedClockSign(ComboPll.PllClock(cfgcr0), deltaMs, cfg.learningRate);
    }
  }

  /** A nudge asks for the raise, or for less than there is. */
  lemma ShiftedIsRaised(clock: real, cfg: Config, deltaMs: real)
    requires clock >= 0.0 && 0.0 <= cfg.learningRate
    ensures Raise(clock, cfg) >= 0.0
    ensures ShiftedClock(clock, deltaMs, cfg.learningRate)
         == if deltaMs > 0.0 then clock - Raise(clock, cfg) else clock + Raise(clock, cfg)
  {
    MulMonotone(0.0, cfg.learningRate, clock);
  }

  /** What a Combo PHY makes of a request that is less than a kilohertz above its clock. */
  lemma ComboLowRequest(cfgcr0: nat, request: real)
    requires 0.0 <= request < ComboPll.PllClock(cfgcr0) + 0.001
    ensures ComboPll.PllClock(ComboPll.EncodeAny(cfgcr0, request)) <= ComboPll.PllClock(cfgcr0)
  {
    if request >= ComboPll.PllClock(cfgcr0) {
      ComboPll.RaisedIff(cfgcr0, request - ComboPll.PllClock(cfgcr0));
      ComboPll.KilohertzToNextCode(ComboPll.Fraction(cfgcr0) % 16384);
    } else {
      ComboPll.EncodeNeverAbove(cfgcr0, request);
    }
  }

  /**
   When a nudge asks for less than a kilohertz it never raises the clock of a Combo PHY, whichever way it is
   meant.
   */
  lemma ComboNudgeNeverRaises(cfgcr0: nat, cfg: Config, deltaMs: real)
    requires Raise(ComboPll.PllClock(cfgcr0), cfg) < 0.001
    ensures ComboPll.PllClock(Nudge(ComboPll.ComboCodec(), cfgcr0, cfg, deltaMs)) <= ComboPll.PllClock(cfgcr0)
  {
    var clock := ComboPll.PllClock(cfgcr0);
    ComboPll.RaisedIff(cfgcr0, 0.0);
    if clock > 0.0 {
      ComboNudge(cfgcr0, cfg, deltaMs);
      if NudgeActs(cfg, deltaMs) {
        ShiftedIsRaised(clock, cfg, deltaMs);
        ComboLowRequest(cfgcr0, ShiftedClock(clock, deltaMs, cfg.learningRate));
      }
    }
  }

  lemma RaiseMonotone(a: real, b: real, cfg: Config)
    requires 0.0 <= a <= b
    ensures cfg.learningRate >= 0.0 ==> Raise(a, cfg) <= Raise(b, cfg)
    ensures cfg.learningRate < 0.0 ==> Raise(a, cfg) <= 0.0
  {
    if cfg.learningRate >= 0.0 {
      MulMonotone(a, b, cfg.learningRate);
    } else {
      MulMonotone(cfg.learningRate, 0.0, a);
    }
  }

  /**
   At such a rate no run of synchronisations ever raises the clock of a Combo PHY, not even one whose nudges
   are all meant to.
   */
  lemma {:induction false} ComboNeverRises(cfgcr0: nat, cfg: Config, events: seq<Event>)
    requires Raise(ComboPll.PllClock(cfgcr0), cfg) < 0.001
    ensures ComboPll.PllClock(RestAfter(ComboPll.ComboCodec(), cfgcr0, cfg, events)) <= ComboPll.PllClock(cfgcr0)
  {
    if events == [] {
    } else {
      var k := |events| - 1;
      var before := RestAfter(ComboPll.ComboCodec(), cfgcr0, cfg, events[..k]);
      ComboNeverRises(cfgcr0, cfg, events[..k]);
      ComboPll.RaisedIff(before, 0.0);
      RaiseMonotone(ComboPll.PllClock(before), ComboPll.PllClock(cfgcr0), cfg);
      ComboNudgeNeverRaises(before, cfg, events[k].deltaMs);
    }
  }

  lemma RaiseBelowClock(clock: real, cfg: Config)
    requires clock >= 0.0 && cfg.learningRate <= 1.0
    ensures Raise(clock, cfg) <= clock / 100.0
  {
    MulMonotone(cfg.learningRate, 1.0, clock);
  }

  lemma ComboWriteRaisesIff(cfgcr0: nat, raise: real)
    requires 0.0 <= raise <= 1000.0
    ensures ComboPll.PllClock(cfgcr0) >= 0.0
    ensures ComboPll.PllClock(ComboPll.EncodeAny(cfgcr0, ComboPll.PllClock(cfgcr0) + raise)) > ComboPll.PllClock(cfgcr0)
       <==> && raise * 1000.0 >= ComboPll.ToNextCode(ComboPll.Fraction(cfgcr0) % 16384)
            && ComboPll.PllClock(cfgcr0) + raise < ComboPll.MAX_CLOCK
  {
    ComboPll.RaisedIff(cfgcr0, raise);
  }

  /**
   A nudge that is meant to raise the clock of a Combo PHY does exactly when what it asks for reaches the
   next fraction code and the integer field holds it.
   */
  lemma ComboNudgeRaisesIff(cfgcr0: nat, cfg: Config, deltaMs: real)
    requires ComboPll.PllClock(cfgcr0) > 0.0 && NudgeActs(cfg, deltaMs) && deltaMs <= 0.0
    ensures var clock := ComboPll.PllClock(cfgcr0);
      ComboPll.PllClock(Nudge(ComboPll.ComboCodec(), cfgcr0, cfg, deltaMs)) > clock
      <==> && Raise(clock, cfg) * 1000.0 >= ComboPll.ToNextCode(ComboPll.Fraction(cfgcr0) % 16384)
           && clock + Raise(clock, cfg) < ComboPll.MAX_CLOCK
  {
    var clock := ComboPll.PllClock(cfgcr0);
    ComboNudge(cfgcr0, cfg, deltaMs);
    ShiftedIsRaised(clock, cfg, deltaMs);
    RaiseBelowClock(clock, cfg);
    ComboPll.ClockRange(cfgcr0);
    ComboWriteRaisesIff(cfgcr0, Raise(clock, cfg));
  }

  /** At the documented rate of 0.00001 percent no Combo PHY that starts below 10 GHz is ever raised. */
  lemma ComboDocumentedRate(cfgcr0: nat, cfg: Config, events: seq<Event>)
    requires cfg.learningRate == 0.00001 && ComboPll.PllClock(cfgcr0) < 10000.0
    ensures ComboPll.PllClock(RestAfter(ComboPll.ComboCodec(), cfgcr0, cfg, events)) <= ComboPll.PllClock(cfgcr0)
  {
    ComboNeverRises(cfgcr0, cfg, events);
  }

  // ----- on a C10 PHY

  lemma C10QuantisesAbove(s: C10Pll.PllState, lo: real)
    requires C10Pll.Usable(s) && lo >= C10Pll.BandLow(s)
    ensures C10Pll.Lsb(s) >= 0.0
    ensures QuantisesBelow(C10Pll.C10Codec(), (t: C10Pll.PllState) => C10Pll.SameBand(s, t), lo, C10Pll.BandHigh(s),
                           C10Pll.Lsb(s))
  {
    C10Pll.C10Quantises(s);
  }

  /** On a C10 PHY the learned clock keeps to its ideal from below by one quotient step a nudge. */
  lemma C10LearnedClock(s: C10Pll.PllState, cfg: Config, readings: seq<Reading>, lo: real)
    requires C10Pll.Usable(s) && lo > 0.0 && lo >= C10Pll.BandLow(s)
    requires IdealInRange(C10Pll.C10Codec().decode(s), cfg, Events(cfg, readings), C10Pll.Lsb(s), lo,
                          C10Pll.BandHigh(s))
    ensures var codec := C10Pll.C10Codec();
      var events := Events(cfg, readings);
      var ideal := Ideal(codec.decode(s), cfg, events);
      ideal - Accumulated(cfg, C10Pll.Lsb(s), Nudges(cfg, events))
      <= codec.decode(RestAfterReadings(codec, s, cfg, readings)) <= ideal
  {
    C10QuantisesAbove(s, lo);
    LearnedBelowFromReadings(C10Pll.C10Codec(), (t: C10Pll.PllState) => C10Pll.SameBand(s, t), lo, C10Pll.BandHigh(s),
                             C10Pll.Lsb(s), s, cfg, readings);
  }
}
