/**
 The decision `do_pipe_sync` makes from one reading to the next (`swgenlock/secondary.cpp`), over the
 per-pipe counters of `swgenlock/sync_common.cpp`.
 */
module Hysteresis {

  datatype Stats = Stats(successIter: nat, syncCount: nat, outOfSync: nat)

  datatype Outcome = InStep | Deferred | Synced

  /** The counters after `reset_pipe_stats`. */
  const FRESH := Stats(0, 0, 0)

  /** One reading: `over` says that the delta exceeds the threshold. */
  function Decide(s: Stats, over: bool): Outcome {
    if !over then InStep
    else if s.outOfSync + 1 < 2 && s.syncCount > 1 then Deferred
    else Synced
  }

  /** The counters after a reading whose synchronisation, if there was one, succeeded. */
  function NextStats(s: Stats, over: bool): Stats {
    match Decide(s, over)
    case InStep => s.(outOfSync := 0, successIter := s.successIter + 1)
    case Deferred => s.(outOfSync := s.outOfSync + 1)
    case Synced => Stats(0, s.syncCount + 1, 0)
  }

  function StatsAfter(readings: seq<bool>): Stats {
    if readings == [] then FRESH
    else NextStats(StatsAfter(readings[..|readings| - 1]), readings[|readings| - 1])
  }

  function OutcomeAt(readings: seq<bool>, k: nat): Outcome
    requires k < |readings|
  {
    Decide(StatsAfter(readings[..k]), readings[k])
  }

  function OverCount(readings: seq<bool>): nat {
    if readings == [] then 0
    else OverCount(readings[..|readings| - 1]) + (if readings[|readings| - 1] then 1 else 0)
  }

  /** Deferred readings that were followed by one below the threshold, so that nothing came of them. */
  function Forgiven(readings: seq<bool>): nat {
    if readings == [] then 0
    else
      var k := |readings| - 1;
      Forgiven(readings[..k]) + (if k > 0 && !readings[k] && OutcomeAt(readings, k - 1).Deferred? then 1 else 0)
  }

  lemma {:induction false} CountersInvariant(readings: seq<bool>)
    ensures var s := StatsAfter(readings);
      && s.outOfSync <= 1
      && (s.outOfSync == 1 <==> readings != [] && OutcomeAt(readings, |readings| - 1).Deferred?)
      && (s.syncCount <= 1 ==> s.outOfSync == 0 && Forgiven(readings) == 0)
  {
    if readings != [] {
      var k := |readings| - 1;
      CountersInvariant(readings[..k]);
      if k > 0 {
        assert readings[..k][..k - 1] == readings[..k - 1];
        assert OutcomeAt(readings[..k], k - 1) == OutcomeAt(readings, k - 1);
      }
    }
  }

  /**
   Every reading over the threshold is accounted for: one for each of the first two synchronisations,
   two for each later one, those that were forgiven, and the one that may be pending.
   */
  lemma {:induction false} OverReadingsAccounted(readings: seq<bool>)
    ensures var s := StatsAfter(readings);
      OverCount(readings)
      == (if s.syncCount >= 2 then 2 * s.syncCount - 2 else s.syncCount) + Forgiven(readings) + s.outOfSync
  {
    if readings != [] {
      var k := |readings| - 1;
      OverReadingsAccounted(readings[..k]);
      CountersInvariant(readings[..k]);
      if k > 0 {
        assert readings[..k][..k - 1] == readings[..k - 1];
        assert OutcomeAt(readings[..k], k - 1) == OutcomeAt(readings, k - 1);
      }
    }
  }

  /** The readings that were not over the threshold. */
  function UnderCount(readings: seq<bool>): nat {
    if readings == [] then 0
    else UnderCount(readings[..|readings| - 1]) + (if readings[|readings| - 1] then 0 else 1)
  }

  /** The counter of successes is the number of readings in step since the last synchronisation. */
  lemma {:induction false} SuccessesSinceSync(readings: seq<bool>, from: nat)
    requires from <= |readings| && (from > 0 ==> OutcomeAt(readings, from - 1).Synced?)
    requires forall k :: from <= k < |readings| ==> !OutcomeAt(readings, k).Synced?
    ensures StatsAfter(readings).successIter == UnderCount(readings[from..])
    decreases |readings|
  {
    var n := |readings| - 1;
    if from == |readings| {
      assert readings[from..] == [];
    } else {
      var before := readings[..n];
      forall k | from <= k < n ensures OutcomeAt(before, k) == OutcomeAt(readings, k) {
        assert before[..k] == readings[..k];
      }
      if from > 0 {
        assert before[..from - 1] == readings[..from - 1];
      }
      SuccessesSinceSync(before, from);
      assert readings[from..][..n - from] == before[from..];
      assert !OutcomeAt(readings, n).Synced?;
    }
  }

  /**
   A reading synchronises exactly when it is over the threshold and is either among the first two to do
   so or directly follows another reading over the threshold that did not synchronise.
   */
  lemma SyncIff(readings: seq<bool>, k: nat)
    requires k < |readings|
    ensures OutcomeAt(readings, k).Synced? <==>
      && readings[k]
      && (StatsAfter(readings[..k]).syncCount <= 1 || (k > 0 && readings[k - 1] && !OutcomeAt(readings, k - 1).Synced?))
  {
    CountersInvariant(readings[..k]);
    if k > 0 {
      assert readings[..k][..k - 1] == readings[..k - 1];
      assert OutcomeAt(readings[..k], k - 1) == OutcomeAt(readings, k - 1);
      CountersInvariant(readings[..k - 1]);
    }
  }
}
