/**
 The receiving side of the scheduled-presentation protocol: the update queue and the presentation loop of
 `framesync/secondary.cpp`. Times are microseconds of the synchronised real-time clock.
 */
module FrameSecondary {
  import opened Vblank

  datatype Update = Update(target: int, color: nat, sequence: nat)

  datatype Presentation = Presentation(update: Update, at: int)

  function Max(a: int, b: int): int {
    if a < b then b else a
  }

  // ----- the secondary

  /** The presented updates are the taken ones at the given positions, in order and without repetition. */
  ghost predicate InOrder(presented: seq<Presentation>, taken: seq<Update>, positions: seq<nat>) {
    && |positions| == |presented|
    && (forall k :: 0 <= k < |positions| ==> positions[k] < |taken| && presented[k].update == taken[positions[k]])
    && (forall j, k :: 0 <= j < k < |positions| ==> positions[j] < positions[k])
  }

  /** Every update is presented after its target and after the one presented before it. */
  ghost predicate OnTime(presented: seq<Presentation>) {
    && (forall k :: 0 <= k < |presented| ==> presented[k].update.target < presented[k].at)
    && (forall j, k :: 0 <= j < k < |presented| ==> presented[j].at < presented[k].at)
  }

  ghost predicate NotAfter(presented: seq<Presentation>, clock: int) {
    presented != [] ==> presented[|presented| - 1].at <= clock
  }

  lemma OnTimeAppend(next: int -> int, presented: seq<Presentation>, u: Update, wake: int)
    requires Ticks(next) && OnTime(presented) && u.target <= wake && NotAfter(presented, wake)
    ensures OnTime(presented + [Presentation(u, next(wake))])
    ensures NotAfter(presented + [Presentation(u, next(wake))], next(wake))
  {
  }

  lemma InOrderDropped(presented: seq<Presentation>, taken: seq<Update>, positions: seq<nat>, u: Update)
    requires InOrder(presented, taken, positions)
    ensures InOrder(presented, taken + [u], positions)
  {
  }

  lemma InOrderAppend(presented: seq<Presentation>, taken: seq<Update>, positions: seq<nat>, u: Update, at: int)
    requires InOrder(presented, taken, positions)
    ensures InOrder(presented + [Presentation(u, at)], taken + [u], positions + [|taken|])
  {
  }

  lemma HeadTaken(taken: seq<Update>, pending: seq<Update>)
    requires pending != []
    ensures (taken + [pending[0]]) + pending[1..] == taken + pending
  {
  }

  class Secondary {
    /** When `wait_for_vblank` returns if it is called at a given time. */
    const next: int -> int
    var clock: int
    var pending: seq<Update>
    var presented: seq<Presentation>

    /** The updates taken from the queue so far, and which of them were presented. */
    ghost var taken: seq<Update>
    ghost var positions: seq<nat>

    ghost predicate Valid()
      reads this
    {
      && Ticks(next)
      && InOrder(presented, taken, positions)
      && OnTime(presented)
      && NotAfter(presented, clock)
    }

    /** Everything the receive thread ever pushed. */
    ghost function Arrived(): seq<Update>
      reads this
    {
      taken + pending
    }

    constructor (next: int -> int, clock: int)
      requires Ticks(next)
      ensures Valid() && this.next == next && this.clock == clock && Arrived() == [] && pending == [] && presented == []
    {
      this.next, this.clock := next, clock;
      pending, presented, taken, positions := [], [], [], [];
    }

    /** The receive thread got a datagram. */
    method Receive(u: Update)
      requires Valid()
      modifies this`pending
      ensures Valid() && pending == old(pending) + [u] && Arrived() == old(Arrived()) + [u]
    {
      pending := pending + [u];
    }

    /** The vblank comes and the update is shown. */
    method Present(update: Update)
      requires Valid() && clock >= update.target
      modifies this`clock, this`presented, this`taken, this`positions
      ensures Valid() && taken == old(taken) + [update]
      ensures clock == next(old(clock)) && presented == old(presented) + [Presentation(update, clock)]
    {
      OnTimeAppend(next, presented, update, clock);
      clock := next(clock);
      InOrderAppend(presented, taken, positions, update, clock);
      positions := positions + [|taken|];
      presented := presented + [Presentation(update, clock)];
      taken := taken + [update];
    }

    /** The wait for the vblank fails and the update is lost. */
    method Drop(update: Update)
      requires Valid()
      modifies this`taken
      ensures Valid() && taken == old(taken) + [update]
    {
      InOrderDropped(presented, taken, positions, update);
      taken := taken + [update];
    }

    /** Sleeps until the target of the update if that is still to come, and waits for a vblank. */
    method Apply(update: Update, vblank: bool)
      requires Valid()
      modifies this`clock, this`presented, this`taken, this`positions
      ensures Valid() && taken == old(taken) + [update]
      ensures var wake := Max(old(clock), update.target);
        && presented == old(presented) + (if vblank then [Presentation(update, next(wake))] else [])
        && clock == if vblank then next(wake) else wake
    {
      var timeUntilTarget := update.target - clock;
      if timeUntilTarget > 0 {
        clock := update.target;
      }
      if vblank {
        Present(update);
      } else {
        Drop(update);
      }
    }

    /** Nothing is pending: waits for a vblank, if that works. */
    method Idle(vblank: bool) returns (running: bool)
      requires Valid()
      modifies this`clock
      ensures Valid() && running == vblank
      ensures clock == if vblank then next(old(clock)) else old(clock)
    {
      if vblank {
        clock := next(clock);
      }
      return vblank;
    }

    /** The loop may be late for its next iteration. */
    method Delay(lag: nat)
      requires Valid()
      modifies this`clock
      ensures Valid() && clock == old(clock) + lag
    {
      clock := clock + lag;
    }

    /**
     One iteration of the main loop; `vblank` says whether waiting for a vblank works. A late update is
     presented all the same, however late it is.
     */
    method Iterate(vblank: bool) returns (running: bool)
      requires Valid()
      modifies this`clock, this`pending, this`presented, this`taken, this`positions
      ensures Valid() && Arrived() == old(Arrived())
      ensures old(pending) == [] ==>
        && running == vblank && pending == [] && presented == old(presented)
        && clock == if vblank then next(old(clock)) else old(clock)
      ensures old(pending) != [] ==>
        var u := old(pending[0]);
        var wake := Max(old(clock), u.target);
        && running && pending == old(pending[1..])
        && presented == old(presented) + (if vblank then [Presentation(u, next(wake))] else [])
        && clock == if vblank then next(wake) else wake
    {
      if pending != [] {
        var update := pending[0];
        HeadTaken(taken, pending);
        pending := pending[1..];
        Apply(update, vblank);
        return true;
      }
      running := Idle(vblank);
    }
  }

  // ----- what the loop does with a list of arrivals

  datatype Arrival = Arrival(update: Update, at: int)

  ghost predicate Sorted(arrivals: seq<Arrival>) {
    forall j, k :: 0 <= j < k < |arrivals| ==> arrivals[j].at <= arrivals[k].at
  }

  /**
   The iteration that takes an update that arrives at `at` when the loop is free at `free`: at once, or at
   the first vblank from then on.
   */
  function Pickup(next: int -> int, free: int, at: int): int {
    if at <= free then free else next(at - 1)
  }

  /** When the loop has presented `a`. */
  function Finish(next: int -> int, free: int, a: Arrival): int {
    next(Max(Pickup(next, free, a.at), a.update.target))
  }

  /** When a loop that starts at `start` has presented all arrivals. */
  function FreeAt(next: int -> int, start: int, arrivals: seq<Arrival>): int {
    if arrivals == [] then start
    else Finish(next, FreeAt(next, start, arrivals[..|arrivals| - 1]), arrivals[|arrivals| - 1])
  }

  /** The presentations of a secondary whose loop starts at `start`. */
  function Schedule(next: int -> int, start: int, arrivals: seq<Arrival>): (s: seq<Presentation>)
    ensures |s| == |arrivals|
  {
    if arrivals == [] then []
    else
      var k := |arrivals| - 1;
      Schedule(next, start, arrivals[..k]) + [Presentation(arrivals[k].update, FreeAt(next, start, arrivals))]
  }

  function Updates(arrivals: seq<Arrival>): (us: seq<Update>)
    ensures |us| == |arrivals|
  {
    seq(|arrivals|, k requires 0 <= k < |arrivals| => arrivals[k].update)
  }

  /**
   `clock` is where the loop is while it waits for an arrival at `at`: free, or at the vblank after an
   iteration that came before the arrival.
   */
  ghost predicate Waiting(next: int -> int, free: int, clock: int, prev: int, at: int) {
    clock == free || (free <= prev < at && clock == next(prev))
  }

  lemma WaitingPicksUp(next: int -> int, free: int, clock: int, prev: int, at: int)
    requires Ticks(next) && Waiting(next, free, clock, prev, at) && at <= clock
    ensures Pickup(next, free, at) == clock
  {
    if clock != free {
      assert next(at - 1) == next(prev);
    }
  }

  lemma ScheduleNext(next: int -> int, start: int, arrivals: seq<Arrival>, done: nat)
    requires done < |arrivals|
    ensures FreeAt(next, start, arrivals[..done + 1])
         == Finish(next, FreeAt(next, start, arrivals[..done]), arrivals[done])
    ensures Schedule(next, start, arrivals[..done + 1])
         == Schedule(next, start, arrivals[..done])
            + [Presentation(arrivals[done].update, FreeAt(next, start, arrivals[..done + 1]))]
  {
    assert arrivals[..done + 1][..done] == arrivals[..done];
  }

  /** The receive thread delivers what has arrived by now. */
  method Deliver(s: Secondary, arrivals: seq<Arrival>, i0: nat) returns (i: nat)
    requires s.Valid() && i0 <= |arrivals|
    modifies s`pending
    ensures s.Valid() && i0 <= i <= |arrivals| && s.pending == old(s.pending) + Updates(arrivals[i0..i])
    ensures i0 < i ==> arrivals[i - 1].at <= s.clock
    ensures i < |arrivals| ==> arrivals[i].at > s.clock
  {
    i := i0;
    while i < |arrivals| && arrivals[i].at <= s.clock
      invariant s.Valid() && i0 <= i <= |arrivals| && s.pending == old(s.pending) + Updates(arrivals[i0..i])
      invariant i0 < i ==> arrivals[i - 1].at <= s.clock
    {
      s.Receive(arrivals[i].update);
      assert Updates(arrivals[i0..i + 1]) == Updates(arrivals[i0..i]) + [arrivals[i].update];
      i := i + 1;
    }
  }

  /** How far the loop has come: `done` of the `i` delivered arrivals are presented, and the next one is waited for. */
  ghost predicate Progress(next: int -> int, clock: int, pending: seq<Update>, start: int, arrivals: seq<Arrival>,
                           done: nat, i: nat, prev: int) {
    && done <= i <= |arrivals|
    && pending == Updates(arrivals[done..i])
    && FreeAt(next, start, arrivals[..done]) <= clock
    && (done < |arrivals| ==> Waiting(next, FreeAt(next, start, arrivals[..done]), clock, prev, arrivals[done].at))
    && (i > 0 ==> arrivals[i - 1].at <= clock)
  }

  lemma ProgressDelivered(next: int -> int, clock: int, pending: seq<Update>, start: int, arrivals: seq<Arrival>,
                          done: nat, i: nat, j: nat, prev: int)
    requires Ticks(next) && Progress(next, clock, pending, start, arrivals, done, i, prev) && i <= j <= |arrivals|
    requires i < j ==> arrivals[j - 1].at <= clock
    ensures Progress(next, clock, pending + Updates(arrivals[i..j]), start, arrivals, done, j, prev)
  {
    assert Updates(arrivals[done..j]) == Updates(arrivals[done..i]) + Updates(arrivals[i..j]);
  }

  lemma ProgressIdle(next: int -> int, clock: int, start: int, arrivals: seq<Arrival>, done: nat, prev: int)
    requires Ticks(next) && Progress(next, clock, [], start, arrivals, done, done, prev)
    requires done < |arrivals| && arrivals[done].at > clock
    ensures clock < next(clock) && Progress(next, next(clock), [], start, arrivals, done, done, clock)
  {
  }

  lemma ProgressPresented(next: int -> int, clock: int, pending: seq<Update>, start: int, arrivals: seq<Arrival>,
                          done: nat, i: nat, prev: int)
    requires Ticks(next) && Progress(next, clock, pending, start, arrivals, done, i, prev) && done < i
    requires Sorted(arrivals)
    ensures var after := FreeAt(next, start, arrivals[..done + 1]);
      && pending != [] && pending[0] == arrivals[done].update
      && after == next(Max(clock, arrivals[done].update.target))
      && Progress(next, after, pending[1..], start, arrivals, done + 1, i, prev)
  {
    WaitingPicksUp(next, FreeAt(next, start, arrivals[..done]), clock, prev, arrivals[done].at);
    ScheduleNext(next, start, arrivals, done);
    assert Updates(arrivals[done..i])[1..] == Updates(arrivals[done + 1..i]);
  }

  method DeliverDue(s: Secondary, ghost start: int, arrivals: seq<Arrival>, ghost done: nat, i: nat,
                    ghost prev: int) returns (j: nat)
    requires s.Valid() && Progress(s.next, s.clock, s.pending, start, arrivals, done, i, prev)
    modifies s`pending
    ensures s.Valid() && done <= j && Progress(s.next, s.clock, s.pending, start, arrivals, done, j, prev)
    ensures done == j < |arrivals| ==> arrivals[done].at > s.clock
  {
    j := Deliver(s, arrivals, i);
    ProgressDelivered(s.next, s.clock, Updates(arrivals[done..i]), start, arrivals, done, i, j, prev);
  }

  /** The update at the head of the queue is presented. */
  method TakeOne(s: Secondary, ghost start: int, arrivals: seq<Arrival>, done: nat, ghost i: nat, ghost prev: int)
    requires s.Valid() && Progress(s.next, s.clock, s.pending, start, arrivals, done, i, prev) && done < i
    requires Sorted(arrivals)
    modifies s
    ensures s.Valid() && Progress(s.next, s.clock, s.pending, start, arrivals, done + 1, i, prev)
    ensures s.presented
         == old(s.presented) + [Presentation(arrivals[done].update, FreeAt(s.next, start, arrivals[..done + 1]))]
  {
    ProgressPresented(s.next, s.clock, s.pending, start, arrivals, done, i, prev);
    var running := s.Iterate(true);
  }

  /** Nothing has arrived yet: one more vblank goes by. */
  method IdleOnce(s: Secondary, ghost start: int, arrivals: seq<Arrival>, done: nat, ghost prev: int)
    requires s.Valid() && Progress(s.next, s.clock, s.pending, start, arrivals, done, done, prev)
    requires done < |arrivals| && arrivals[done].at > s.clock
    modifies s
    ensures s.Valid() && Progress(s.next, s.clock, s.pending, start, arrivals, done, done, old(s.clock))
    ensures s.presented == old(s.presented) && s.clock > old(s.clock)
  {
    assert s.pending == [];
    ProgressIdle(s.next, s.clock, start, arrivals, done, prev);
    var running := s.Iterate(true);
  }

  /** One turn of both threads: what is due is delivered, and the main loop makes one iteration. */
  method Turn(s: Secondary, ghost start: int, arrivals: seq<Arrival>, done0: nat, i0: nat, ghost prev0: int)
      returns (done: nat, i: nat, ghost prev: int)
    requires s.Valid() && Progress(s.next, s.clock, s.pending, start, arrivals, done0, i0, prev0)
    requires Sorted(arrivals) && done0 < |arrivals| && s.presented == Schedule(s.next, start, arrivals[..done0])
    modifies s
    ensures s.Valid() && Progress(s.next, s.clock, s.pending, start, arrivals, done, i, prev)
    ensures done <= |arrivals| && s.presented == Schedule(s.next, start, arrivals[..done])
    ensures done == done0 + 1 || (done == done0 && s.clock > old(s.clock) && arrivals[done].at > old(s.clock))
  {
    done, prev := done0, prev0;
    i := DeliverDue(s, start, arrivals, done, i0, prev);
    if done == i {
      prev := s.clock;
      IdleOnce(s, start, arrivals, done, prev0);
    } else {
      ScheduleNext(s.next, start, arrivals, done);
      TakeOne(s, start, arrivals, done, i, prev);
      done := done + 1;
    }
  }

  /** The two threads run until every arrival is presented do what the schedule says. */
  method RunSecondary(s: Secondary, arrivals: seq<Arrival>)
    requires s.Valid() && s.pending == [] && s.presented == [] && Sorted(arrivals)
    modifies s
    ensures s.Valid() && s.pending == []
    ensures s.presented == Schedule(s.next, old(s.clock), arrivals)
  {
    var i, done := 0, 0;
    ghost var start := s.clock;
    ghost var prev := start;
    while done < |arrivals|
      invariant s.Valid() && done <= |arrivals| && Progress(s.next, s.clock, s.pending, start, arrivals, done, i, prev)
      invariant s.presented == Schedule(s.next, start, arrivals[..done])
      decreases |arrivals| - done, if done < |arrivals| then arrivals[done].at - s.clock else 0
    {
      done, i, prev := Turn(s, start, arrivals, done, i, prev);
    }
    assert arrivals[..done] == arrivals;
  }
}
