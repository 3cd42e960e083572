/** `do_pipe_sync` and `perform_synchronization` of `swgenlock/secondary.cpp` for one pipe. */
module Controller {
  import opened Wrappers
  import opened RealMath
  import opened Codec
  import opened Phase
  import opened Phy
  import opened Measure
  import opened Hysteresis

  /** The command line of a secondary. */
  datatype Config = Config(threshold: int, shift: real, shift2: real, stepThreshold: int, wait: nat,
                           learningRate: real, timePeriod: int, overshoot: real)

  const CLOCK_SYNC_TOLERANCE_US: int := 35000

  predicate IsNotZero(x: real) {
    Abs(x) >= 0.000000001
  }

  /** The shifts with which a ramp never divides by zero. */
  predicate Usable(cfg: Config) {
    cfg.shift != 0.0 || cfg.shift2 == 0.0
  }

  function DeltaMs(delta: int): real {
    delta as real * -1.0 / 1000.0
  }

  /** The correction asked for: with the overshoot unless learning is on and the last sync was recent. */
  function Adjusted(cfg: Config, deltaMs: real, duration: int): real {
    if !IsNotZero(cfg.learningRate) || duration > cfg.timePeriod * 1000
    then deltaMs * (1.0 + cfg.overshoot)
    else deltaMs
  }

  /** A permanent nudge follows the correction. */
  predicate Learns(cfg: Config, duration: int, syncCount: nat) {
    IsNotZero(cfg.learningRate) && syncCount > 1 && duration < cfg.timePeriod * 1000
  }

  /** The temporary correction of one synchronisation, as a trace. */
  ghost function TemporaryTrace<Code>(codec: Codec<Code>, image: Code, cfg: Config, deltaMs: real,
                                      duration: int): seq<Dwell<Code>>
    requires Usable(cfg)
  {
    var td := Adjusted(cfg, deltaMs, duration);
    if ValidArguments(td, cfg.shift, cfg.shift2) then
      ShiftSuffices(codec, image, td, cfg.shift, cfg.shift2, cfg.stepThreshold, true, false);
      CorrectionTrace(codec, image, td, cfg.shift, cfg.shift2, cfg.stepThreshold, cfg.wait)
    else []
  }

  /** The image a permanent nudge in the direction of the correction leaves behind. */
  ghost function Nudge<Code>(codec: Codec<Code>, image: Code, cfg: Config, deltaMs: real): Code {
    if ValidArguments(deltaMs, cfg.learningRate, 0.0) then
      ShiftSuffices(codec, image, deltaMs, cfg.learningRate, 0.0, cfg.stepThreshold, false, false);
      Nudged(codec, image, deltaMs, cfg.learningRate, 0.0, cfg.stepThreshold)
    else image
  }

  /** The nudge as a trace. */
  ghost function LearningTrace<Code>(codec: Codec<Code>, image: Code, cfg: Config, deltaMs: real): seq<Dwell<Code>> {
    if ValidArguments(deltaMs, cfg.learningRate, 0.0) then
      ShiftSuffices(codec, image, deltaMs, cfg.learningRate, 0.0, cfg.stepThreshold, false, false);
      NudgeTrace(codec, image, deltaMs, cfg.learningRate, 0.0, cfg.stepThreshold, cfg.wait)
    else []
  }

  /** Everything one synchronisation does to the clock. */
  ghost function SyncTrace<Code>(codec: Codec<Code>, image: Code, cfg: Config, deltaMs: real, duration: int,
                                 syncCount: nat): seq<Dwell<Code>>
    requires Usable(cfg)
  {
    TemporaryTrace(codec, image, cfg, deltaMs, duration)
    + if Learns(cfg, duration, syncCount) then LearningTrace(codec, image, cfg, deltaMs) else []
  }

  /** The image left at rest by one synchronisation. */
  ghost function Rest<Code>(codec: Codec<Code>, image: Code, cfg: Config, deltaMs: real, duration: int,
                            syncCount: nat): Code {
    if Learns(cfg, duration, syncCount) then Nudge(codec, image, cfg, deltaMs) else image
  }

  // ----- when the overshoot applies, and when learning does

  /** Without learning, or late, the request is overshot. */
  lemma OvershootApplies<Code>(codec: Codec<Code>, image: Code, cfg: Config, deltaMs: real, duration: int, td: real)
    requires Usable(cfg) && (Abs(cfg.learningRate) < 0.000000001 || duration > cfg.timePeriod * 1000)
    requires td == deltaMs * (1.0 + cfg.overshoot) && ValidArguments(td, cfg.shift, cfg.shift2)
    ensures RampsDefined(codec, image, td, cfg.shift, cfg.shift2, cfg.stepThreshold, true, false)
    ensures TemporaryTrace(codec, image, cfg, deltaMs, duration)
         == CorrectionTrace(codec, image, td, cfg.shift, cfg.shift2, cfg.stepThreshold, cfg.wait)
  {
    assert Adjusted(cfg, deltaMs, duration) == td;
    ShiftSuffices(codec, image, td, cfg.shift, cfg.shift2, cfg.stepThreshold, true, false);
  }

  /** With learning, and not late, it is not. */
  lemma NoOvershootWhileLearning<Code>(codec: Codec<Code>, image: Code, cfg: Config, deltaMs: real, duration: int)
    requires Usable(cfg) && Abs(cfg.learningRate) >= 0.000000001 && duration <= cfg.timePeriod * 1000
    requires ValidArguments(deltaMs, cfg.shift, cfg.shift2)
    ensures RampsDefined(codec, image, deltaMs, cfg.shift, cfg.shift2, cfg.stepThreshold, true, false)
    ensures TemporaryTrace(codec, image, cfg, deltaMs, duration)
         == CorrectionTrace(codec, image, deltaMs, cfg.shift, cfg.shift2, cfg.stepThreshold, cfg.wait)
  {
    ShiftSuffices(codec, image, deltaMs, cfg.shift, cfg.shift2, cfg.stepThreshold, true, false);
  }

  /** No synchronisation both overshoots and nudges. */
  lemma NeverBoth<Code>(codec: Codec<Code>, image: Code, cfg: Config, deltaMs: real, duration: int, syncCount: nat)
    requires Usable(cfg)
    requires || Rest(codec, image, cfg, deltaMs, duration, syncCount) != image
             || SyncTrace(codec, image, cfg, deltaMs, duration, syncCount)
                != TemporaryTrace(codec, image, cfg, deltaMs, duration)
    ensures TemporaryTrace(codec, image, cfg, deltaMs, duration)
         == TemporaryTrace(codec, image, cfg.(overshoot := 0.0), deltaMs, duration)
  {
  }

  // ----- with Ctrl+C

  /** When, if ever, Ctrl+C comes during one synchronisation: while PHY `at` is corrected, or while it is nudged. */
  datatype Quit = NoQuit | InCorrection(at: nat, event: CtrlC) | InNudge(at: nat, event: CtrlC)

  /** What comes of it for PHY `j` during the temporary correction. */
  function CorrectionEvent(quit: Quit, j: nat): CtrlC {
    match quit
    case InCorrection(at, event) => EventAt(j, at, event)
    case _ => Never
  }

  /** The same during the nudge: after an interrupted correction the flag is set from the start. */
  function NudgeEvent(quit: Quit, j: nat): CtrlC {
    match quit
    case NoQuit => Never
    case InCorrection(_, _) => InRampUp(0)
    case InNudge(at, event) => EventAt(j, at, event)
  }

  ghost function TemporaryTraceUntil<Code>(codec: Codec<Code>, image: Code, cfg: Config, deltaMs: real, duration: int,
                                           event: CtrlC): seq<Dwell<Code>>
    requires Usable(cfg)
  {
    if event.Never? then TemporaryTrace(codec, image, cfg, deltaMs, duration)
    else
      var td := Adjusted(cfg, deltaMs, duration);
      if ValidArguments(td, cfg.shift, cfg.shift2) then
        ShiftSuffices(codec, image, td, cfg.shift, cfg.shift2, cfg.stepThreshold, true, true);
        CorrectionTraceUntil(codec, image, td, cfg.shift, cfg.shift2, cfg.stepThreshold, cfg.wait, event)
      else []
  }

  ghost function NudgeUntil<Code>(codec: Codec<Code>, image: Code, cfg: Config, deltaMs: real, event: CtrlC): Code {
    if event.Never? then Nudge(codec, image, cfg, deltaMs)
    else if ValidArguments(deltaMs, cfg.learningRate, 0.0) then
      ShiftSuffices(codec, image, deltaMs, cfg.learningRate, 0.0, cfg.stepThreshold, false, true);
      NudgedUntil(codec, image, deltaMs, cfg.learningRate, 0.0, cfg.stepThreshold, event)
    else image
  }

  ghost function LearningTraceUntil<Code>(codec: Codec<Code>, image: Code, cfg: Config, deltaMs: real,
                                          event: CtrlC): seq<Dwell<Code>> {
    if event.Never? then LearningTrace(codec, image, cfg, deltaMs)
    else if ValidArguments(deltaMs, cfg.learningRate, 0.0) then
      ShiftSuffices(codec, image, deltaMs, cfg.learningRate, 0.0, cfg.stepThreshold, false, true);
      NudgeTraceUntil(codec, image, deltaMs, cfg.learningRate, 0.0, cfg.stepThreshold, cfg.wait, event)
    else []
  }

  /** Everything one synchronisation does to the clock of PHY `j`. */
  ghost function SyncTraceUntil<Code>(codec: Codec<Code>, image: Code, cfg: Config, deltaMs: real, duration: int,
                                      syncCount: nat, quit: Quit, j: nat): seq<Dwell<Code>>
    requires Usable(cfg)
  {
    TemporaryTraceUntil(codec, image, cfg, deltaMs, duration, CorrectionEvent(quit, j))
    + if Learns(cfg, duration, syncCount)
      then LearningTraceUntil(codec, image, cfg, deltaMs, NudgeEvent(quit, j))
      else []
  }

  /** The image it leaves at rest. */
  ghost function RestUntil<Code>(codec: Codec<Code>, image: Code, cfg: Config, deltaMs: real, duration: int,
                                 syncCount: nat, quit: Quit, j: nat): Code {
    if Learns(cfg, duration, syncCount) then NudgeUntil(codec, image, cfg, deltaMs, NudgeEvent(quit, j)) else image
  }

  /** Without Ctrl+C these are `Rest` and `SyncTrace`; and Ctrl+C during the correction leaves the registers alone. */
  lemma QuitCases<Code>(codec: Codec<Code>, image: Code, cfg: Config, deltaMs: real, duration: int, syncCount: nat,
                        quit: Quit, j: nat)
    requires Usable(cfg)
    ensures quit.NoQuit? ==>
      && RestUntil(codec, image, cfg, deltaMs, duration, syncCount, quit, j)
         == Rest(codec, image, cfg, deltaMs, duration, syncCount)
      && SyncTraceUntil(codec, image, cfg, deltaMs, duration, syncCount, quit, j)
         == SyncTrace(codec, image, cfg, deltaMs, duration, syncCount)
    ensures quit.InCorrection? ==> RestUntil(codec, image, cfg, deltaMs, duration, syncCount, quit, j) == image
  {
    if quit.InCorrection? && ValidArguments(deltaMs, cfg.learningRate, 0.0)
       && Writes(codec, image, deltaMs, cfg.learningRate, 0.0, cfg.stepThreshold) {
      ShiftSuffices(codec, image, deltaMs, cfg.learningRate, 0.0, cfg.stepThreshold, false, true);
      TargetPositive(codec, image, deltaMs, cfg.learningRate, 0.0, cfg.stepThreshold);
      var base := codec.decode(image);
      var target := TargetClock(codec, image, deltaMs, cfg.learningRate, 0.0, cfg.stepThreshold);
      assert RampUntil(base, target, cfg.learningRate, Some(0)) == [];
    }
  }

  /** What happens to PHY `j`: the correction, then the nudge if there is one. */
  ghost predicate InParts<Code>(codec: Codec<Code>, hw: Code, trace: seq<Dwell<Code>>, hw': Code,
                                trace': seq<Dwell<Code>>, cfg: Config, deltaMs: real, duration: int, syncCount: nat,
                                quit: Quit, j: nat)
    requires Usable(cfg)
  {
    var corrected := trace + TemporaryTraceUntil(codec, hw, cfg, deltaMs, duration, CorrectionEvent(quit, j));
    if Learns(cfg, duration, syncCount)
    then && hw' == NudgeUntil(codec, hw, cfg, deltaMs, NudgeEvent(quit, j))
         && trace' == corrected + LearningTraceUntil(codec, hw, cfg, deltaMs, NudgeEvent(quit, j))
    else hw' == hw && trace' == corrected
  }

  lemma PartsMakeWhole<Code>(codec: Codec<Code>, hw: Code, trace: seq<Dwell<Code>>, hw': Code,
                             trace': seq<Dwell<Code>>, cfg: Config, deltaMs: real, duration: int, syncCount: nat,
                             quit: Quit, j: nat)
    requires Usable(cfg)
    requires InParts(codec, hw, trace, hw', trace', cfg, deltaMs, duration, syncCount, quit, j)
    ensures hw' == RestUntil(codec, hw, cfg, deltaMs, duration, syncCount, quit, j)
    ensures trace' == trace + SyncTraceUntil(codec, hw, cfg, deltaMs, duration, syncCount, quit, j)
  {
    var t := TemporaryTraceUntil(codec, hw, cfg, deltaMs, duration, CorrectionEvent(quit, j));
    var l := LearningTraceUntil(codec, hw, cfg, deltaMs, NudgeEvent(quit, j));
    assert trace + (t + l) == trace + t + l;
    assert t + [] == t;
  }

  predicate Over(cfg: Config, delta: int) {
    cfg.threshold != 0 && AbsInt(delta) > cfg.threshold
  }

  class PipeController<Code(==)> {
    const library: VsyncLibrary<Code>
    const pipe: int
    const cfg: Config
    var stats: Stats

    constructor (library: VsyncLibrary<Code>, pipe: int, cfg: Config)
      ensures this.library == library && this.pipe == pipe && this.cfg == cfg && stats == FRESH
    {
      this.library, this.pipe, this.cfg := library, pipe, cfg;
      stats := FRESH;
    }

    predicate Ready()
      reads library, library.phys
    {
      library.Distinct() && library.Idle() && Usable(cfg)
    }

    /** The temporary correction: every register is back at the end, Ctrl+C or not. */
    method CorrectTemporarily(deltaMs: real, duration: int, quit: Quit)
      requires Ready()
      modifies library.phys
      ensures Ready()
      ensures forall j :: 0 <= j < |library.phys| ==> library.phys[j].hw == old(library.phys[j].hw)
      ensures forall j :: 0 <= j < |library.phys| && !library.Matches(library.phys[j], pipe) ==>
        library.phys[j].trace == old(library.phys[j].trace)
      ensures forall j :: 0 <= j < |library.phys| && library.Matches(library.phys[j], pipe) ==>
        var p := library.phys[j];
        p.trace == old(p.trace)
                   + TemporaryTraceUntil(p.codec, old(p.hw), cfg, deltaMs, duration, CorrectionEvent(quit, j))
    {
      var adjusted := deltaMs;
      if !IsNotZero(cfg.learningRate) || duration > cfg.timePeriod * 1000 {
        adjusted := adjusted * (1.0 + cfg.overshoot);
      }
      assert adjusted == Adjusted(cfg, deltaMs, duration);
      if ValidArguments(adjusted, cfg.shift, cfg.shift2) {
        AllDefined(adjusted, cfg.shift, cfg.shift2, true);
      }
      var ignored := library.SynchronizeVsync(adjusted, pipe, cfg.shift, cfg.shift2, cfg.stepThreshold, cfg.wait,
                                              true, true,
                                              if quit.InCorrection? then quit.at else |library.phys|,
                                              if quit.InCorrection? then quit.event else Never);
    }

    lemma AllDefined(timeDiff: real, shift: real, shift2: real, reset: bool)
      requires ValidArguments(timeDiff, shift, shift2) && (shift > 0.0 || shift2 == 0.0)
      ensures forall j, quits :: 0 <= j < |library.phys| ==>
        var p := library.phys[j];
        RampsDefined(p.codec, p.hw, timeDiff, shift, shift2, cfg.stepThreshold, reset, quits)
    {
      forall j, quits | 0 <= j < |library.phys|
        ensures var p := library.phys[j];
          RampsDefined(p.codec, p.hw, timeDiff, shift, shift2, cfg.stepThreshold, reset, quits)
      {
        var p := library.phys[j];
        ShiftSuffices(p.codec, p.hw, timeDiff, shift, shift2, cfg.stepThreshold, reset, quits);
      }
    }

    /** The learning step: a correction with the learning rate as shift that is not undone. */
    method NudgePermanently(deltaMs: real, quit: Quit)
      requires Ready()
      modifies library.phys
      ensures Ready()
      ensures forall j :: 0 <= j < |library.phys| && !library.Matches(library.phys[j], pipe) ==>
        library.phys[j].hw == old(library.phys[j].hw) && library.phys[j].trace == old(library.phys[j].trace)
      ensures forall j :: 0 <= j < |library.phys| && library.Matches(library.phys[j], pipe) ==>
        var p := library.phys[j];
        && p.hw == NudgeUntil(p.codec, old(p.hw), cfg, deltaMs, NudgeEvent(quit, j))
        && p.trace == old(p.trace) + LearningTraceUntil(p.codec, old(p.hw), cfg, deltaMs, NudgeEvent(quit, j))
    {
      if ValidArguments(deltaMs, cfg.learningRate, 0.0) {
        AllDefined(deltaMs, cfg.learningRate, 0.0, false);
      }
      var quitAt, event := |library.phys|, Never;
      if quit.InCorrection? {
        quitAt, event := 0, InRampUp(0);
      } else if quit.InNudge? {
        quitAt, event := quit.at, quit.event;
      }
      var ignored := library.SynchronizeVsync(deltaMs, pipe, cfg.learningRate, 0.0, cfg.stepThreshold, cfg.wait,
                                              false, true, quitAt, event);
    }

    /** The correction and, when learning applies, the nudge. */
    method CorrectAndNudge(deltaMs: real, duration: int, syncCount: nat, quit: Quit)
      requires Ready()
      modifies library.phys
      ensures Ready()
      ensures forall j :: 0 <= j < |library.phys| && !library.Matches(library.phys[j], pipe) ==>
        library.phys[j].hw == old(library.phys[j].hw) && library.phys[j].trace == old(library.phys[j].trace)
      ensures forall j :: 0 <= j < |library.phys| && library.Matches(library.phys[j], pipe) ==>
        InParts(library.phys[j].codec, old(library.phys[j].hw), old(library.phys[j].trace), library.phys[j].hw,
                library.phys[j].trace, cfg, deltaMs, duration, syncCount, quit, j)
      ensures syncCount <= 1 || duration >= cfg.timePeriod * 1000 ==>
        forall j :: 0 <= j < |library.phys| ==> library.phys[j].hw == old(library.phys[j].hw)
    {
      CorrectTemporarily(deltaMs, duration, quit);
      if IsNotZero(cfg.learningRate) && syncCount > 1 && duration < cfg.timePeriod * 1000 {
        NudgePermanently(deltaMs, quit);
      }
    }

    /** What a synchronisation makes of PHY `j`, which held `hw` and had `trace` before. */
    ghost predicate Synchronised(p: Phy<Code>, hw: Code, trace: seq<Dwell<Code>>, deltaMs: real, duration: int,
                                 syncCount: nat, quit: Quit, j: nat)
      requires Usable(cfg)
      reads p
    {
      && p.hw == RestUntil(p.codec, hw, cfg, deltaMs, duration, syncCount, quit, j)
      && p.trace == trace + SyncTraceUntil(p.codec, hw, cfg, deltaMs, duration, syncCount, quit, j)
    }

    /**
     `started` says whether the logging thread could be created. What `synchronize_vsync` returns is
     ignored, so the only failure is that thread's.
     */
    method PerformSynchronization(deltaMs: real, duration: int, syncCount: nat, started: bool, quit: Quit)
        returns (status: Status)
      requires Ready()
      modifies library.phys
      ensures Ready()
      ensures status.Success? <==> started
      ensures forall j :: 0 <= j < |library.phys| && (!started || (pipe != 4 && library.phys[j].pipe != pipe)) ==>
        library.phys[j].hw == old(library.phys[j].hw) && library.phys[j].trace == old(library.phys[j].trace)
      ensures syncCount <= 1 || duration >= cfg.timePeriod * 1000 ==>
        forall j :: 0 <= j < |library.phys| ==> library.phys[j].hw == old(library.phys[j].hw)
      ensures started ==> forall j :: 0 <= j < |library.phys| && (pipe == 4 || library.phys[j].pipe == pipe) ==>
        Synchronised(library.phys[j], old(library.phys[j].hw), old(library.phys[j].trace), deltaMs, duration, syncCount,
                     quit, j)
    {
      if !started {
        return Failure;
      }
      CorrectAndNudge(deltaMs, duration, syncCount, quit);
      forall j | 0 <= j < |library.phys| && (pipe == 4 || library.phys[j].pipe == pipe)
        ensures Synchronised(library.phys[j], old(library.phys[j].hw), old(library.phys[j].trace), deltaMs, duration,
                             syncCount, quit, j)
      {
        PartsMakeWhole(library.phys[j].codec, old(library.phys[j].hw), old(library.phys[j].trace), library.phys[j].hw,
                       library.phys[j].trace, cfg, deltaMs, duration, syncCount, quit, j);
      }
      return Success;
    }

    /** What one iteration makes of the normalised delta: the decision, and the synchronisation if it comes to that. */
    method ActOn(delta: int, duration: int, started: bool, quit: Quit) returns (status: Status)
      requires Ready()
      modifies this`stats, library.phys
      ensures Ready()
      ensures var over := cfg.threshold != 0 && AbsInt(delta) > cfg.threshold;
        var synced := Decide(old(stats), over).Synced?;
        && (status.Failure? <==> synced && !started)
        && stats == (if synced && !started then old(stats).(outOfSync := 0) else NextStats(old(stats), over))
        && (forall k :: 0 <= k < |library.phys| && synced && started && (pipe == 4 || library.phys[k].pipe == pipe) ==>
              Synchronised(library.phys[k], old(library.phys[k].hw), old(library.phys[k].trace), DeltaMs(delta),
                           duration, old(stats).syncCount, quit, k))
        && (forall k :: 0 <= k < |library.phys|
                        && !(synced && started && (pipe == 4 || library.phys[k].pipe == pipe)) ==>
              library.phys[k].hw == old(library.phys[k].hw) && library.phys[k].trace == old(library.phys[k].trace))
    {
      var s := stats;
      if cfg.threshold != 0 && AbsInt(delta) > cfg.threshold {
        s := s.(outOfSync := s.outOfSync + 1);
        if s.outOfSync < 2 && s.syncCount > 1 {
          stats := s;
          return Success;
        }
        s := s.(outOfSync := 0);
        var result := PerformSynchronization(DeltaMs(delta), duration, s.syncCount, started, quit);
        if result.Failure? {
          stats := s;
          return Failure;
        }
        s := s.(successIter := 0, syncCount := s.syncCount + 1);
      } else {
        s := s.(outOfSync := 0, successIter := s.successIter + 1);
      }
      stats := s;
      return Success;
    }

    /**
     One iteration for the pipe. The captures fail or give timestamps; `duration` is the time since the
     last synchronisation in milliseconds. The counters follow `NextStats` and the registers follow `Rest`,
     both driven by the normalised delta of the closest pair of stamps.
     */
    method DoPipeSync(secondary: Option<seq<int>>, primary: Option<seq<int>>, duration: int, started: bool, quit: Quit)
        returns (status: Status)
      requires Ready()
      requires secondary.Some? ==> secondary.value != [] && Stamps(secondary.value) && Average(secondary.value) > 0
      requires primary.Some? ==> primary.value != [] && Stamps(primary.value)
      modifies this`stats, library.phys
      ensures Ready()
      ensures secondary.None? || primary.None? ==> status.Failure? && stats == old(stats)
      ensures secondary.None? || primary.None? ==> forall j :: 0 <= j < |library.phys| ==>
        library.phys[j].hw == old(library.phys[j].hw) && library.phys[j].trace == old(library.phys[j].trace)
      ensures secondary.Some? && primary.Some? ==> exists i, j :: Nearest(primary.value, secondary.value, i, j)
      ensures secondary.Some? && primary.Some? ==> forall i, j :: Nearest(primary.value, secondary.value, i, j) ==>
        var raw := secondary.value[i] - primary.value[j];
        var delta := Normalized(raw, Average(secondary.value));
        var over := cfg.threshold != 0 && AbsInt(delta) > cfg.threshold;
        var synced := AbsInt(raw) <= 35000 && Decide(old(stats), over).Synced?;
        && (status.Failure? <==> AbsInt(raw) > 35000 || (synced && !started))
        && stats == (if AbsInt(raw) > 35000 then old(stats)
                     else if synced && !started then old(stats).(outOfSync := 0)
                     else NextStats(old(stats), over))
        && (forall k :: 0 <= k < |library.phys| && synced && started && (pipe == 4 || library.phys[k].pipe == pipe) ==>
              Synchronised(library.phys[k], old(library.phys[k].hw), old(library.phys[k].trace), DeltaMs(delta),
                           duration, old(stats).syncCount, quit, k))
        && (forall k :: 0 <= k < |library.phys|
                        && !(synced && started && (pipe == 4 || library.phys[k].pipe == pipe)) ==>
              library.phys[k].hw == old(library.phys[k].hw) && library.phys[k].trace == old(library.phys[k].trace))
    {
      if secondary.None? || primary.None? {
        return Failure;
      }
      var delta, matching := FindMinimumDelta(primary.value, secondary.value, 0);
      ghost var i, j :| Nearest(primary.value, secondary.value, i, j) && delta == secondary.value[i] - primary.value[j];
      forall a, b | Nearest(primary.value, secondary.value, a, b) ensures a == i && b == j {
        NearestUnique(primary.value, secondary.value, i, j, a, b);
      }
      if AbsInt(delta) > CLOCK_SYNC_TOLERANCE_US {
        return Failure;
      }
      var avg := FindAvg(secondary.value);
      delta := NormalizeDelta(delta, avg);
      status := ActOn(delta, duration, started, quit);
    }
  }
}
