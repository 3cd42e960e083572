/** The scheduling loop of `framesync/primary.cpp`. */
module FramePrimary {
  import opened Vblank
  import opened FrameSecondary

  /** A broadcast update and when it was sent. */
  datatype Send = Send(update: Update, at: int)

  /** The pause after a vblank before anything is sent. */
  const AFTER_VBLANK_US: int := 500

  const COLORS: nat := 8

  /** Updates leave just after a vblank, for a fixed time ahead. */
  predicate Scheduled(next: int -> int, ahead: int, s: Send) {
    IsVblank(next, s.at - AFTER_VBLANK_US) && s.update.target == s.at + ahead
  }

  /** The next update leaves after the vblank at which the one before was due, and an interval after its target. */
  predicate Follows(next: int -> int, interval: int, before: Send, s: Send) {
    s.at > next(before.update.target) && s.at - before.update.target >= interval
  }

  ghost predicate Paced(next: int -> int, interval: int, ahead: int, sends: seq<Send>) {
    && (forall k :: 0 <= k < |sends| ==> Scheduled(next, ahead, sends[k]))
    && (forall k :: 0 < k < |sends| ==> Follows(next, interval, sends[k - 1], sends[k]))
  }

  /** The colour index after `n` updates: there are eight. */
  function ColorAt(cycle: bool, n: nat): nat {
    if cycle then n % 8 else 0
  }

  /** Sequence numbers count from 1 and the colours go round, or stay on the first one. */
  ghost predicate Numbered(cycle: bool, sends: seq<Send>) {
    forall k :: 0 <= k < |sends| ==>
      sends[k].update.sequence == k + 1 && sends[k].update.color == ColorAt(cycle, k + 1)
  }

  /** The last change, as the loop sees it, is not before the target of the last update. */
  ghost predicate Settled(sends: seq<Send>, lastChange: int, clock: int) {
    lastChange <= clock && (sends != [] ==> sends[|sends| - 1].update.target <= lastChange)
  }

  lemma TicksMonotone(next: int -> int, s: int, t: int)
    requires Ticks(next) && s <= t
    ensures next(s) <= next(t)
  {
    if t < next(s) {
      assert next(t) == next(s);
    }
  }

  lemma VblankOfNext(next: int -> int, t: int)
    requires Ticks(next)
    ensures IsVblank(next, next(t))
  {
    assert t <= next(t) - 1 < next(t);
    assert next(next(t) - 1) == next(t);
  }

  lemma NewSend(next: int -> int, interval: int, ahead: int, sends: seq<Send>, s: Send, lastChange: int, clock: int)
    requires Ticks(next) && Settled(sends, lastChange, clock)
    requires s.at == next(clock) + AFTER_VBLANK_US && s.at - lastChange >= interval && s.update.target == s.at + ahead
    ensures Scheduled(next, ahead, s)
    ensures sends != [] ==> Follows(next, interval, sends[|sends| - 1], s)
  {
    VblankOfNext(next, clock);
    if sends != [] {
      TicksMonotone(next, sends[|sends| - 1].update.target, clock);
    }
  }

  lemma PacedAppend(next: int -> int, interval: int, ahead: int, sends: seq<Send>, s: Send)
    requires Paced(next, interval, ahead, sends) && Scheduled(next, ahead, s)
    requires sends != [] ==> Follows(next, interval, sends[|sends| - 1], s)
    ensures Paced(next, interval, ahead, sends + [s])
  {
    var all := sends + [s];
    forall k | 0 < k < |all| ensures Follows(next, interval, all[k - 1], all[k]) {
      if k < |sends| {
        assert all[k] == sends[k] && all[k - 1] == sends[k - 1];
      }
    }
  }

  lemma NextColor(cycle: bool, n: nat)
    ensures ColorAt(cycle, n + 1) == if cycle then (ColorAt(cycle, n) + 1) % COLORS else ColorAt(cycle, n)
  {
  }

  lemma NumberedAppend(cycle: bool, sends: seq<Send>, s: Send)
    requires Numbered(cycle, sends) && s.update.sequence == |sends| + 1 && s.update.color == ColorAt(cycle, |sends| + 1)
    ensures Numbered(cycle, sends + [s])
  {
  }

  class Primary {
    const next: int -> int
    const interval: nat
    const ahead: nat
    const cycle: bool

    var clock: int
    var lastChange: int
    var sequence: nat
    var colorIndex: nat
    var presented: seq<Presentation>

    ghost var sent: seq<Send>

    /** What has been sent agrees with the counters. */
    ghost predicate Consistent()
      reads this
    {
      && Ticks(next)
      && sequence == |sent|
      && colorIndex == ColorAt(cycle, |sent|)
      && Paced(next, interval, ahead, sent)
      && Numbered(cycle, sent)
    }

    ghost predicate Valid()
      reads this
    {
      Consistent() && Settled(sent, lastChange, clock)
    }

    constructor (next: int -> int, interval: nat, ahead: nat, cycle: bool, clock: int)
      requires Ticks(next)
      ensures Valid() && sent == [] && presented == []
      ensures this.next == next && this.interval == interval && this.ahead == ahead && this.cycle == cycle
      ensures this.clock == lastChange == clock && sequence == 0 && colorIndex == 0
    {
      this.next, this.interval, this.ahead, this.cycle := next, interval, ahead, cycle;
      this.clock, lastChange, sequence, colorIndex, presented, sent := clock, clock, 0, 0, [], [];
    }

    /** The update that would go out now. */
    function Upcoming(now: int): Update
      reads this
    {
      Update(now + ahead, if cycle then (colorIndex + 1) % COLORS else colorIndex, sequence + 1)
    }

    /** Broadcasts the next update. */
    method Broadcast(now: int) returns (update: Update)
      requires Valid() && now == next(clock) + AFTER_VBLANK_US && now - lastChange >= interval
      modifies this`colorIndex, this`sequence, this`sent
      ensures update == old(Upcoming(now)) && sent == old(sent) + [Send(update, now)] && Consistent()
    {
      NextColor(cycle, |sent|);
      if cycle {
        colorIndex := (colorIndex + 1) % COLORS;
      }
      sequence := sequence + 1;
      update := Update(now + ahead, colorIndex, sequence);
      NewSend(next, interval, ahead, sent, Send(update, now), lastChange, clock);
      PacedAppend(next, interval, ahead, sent, Send(update, now));
      NumberedAppend(cycle, sent, Send(update, now));
      sent := sent + [Send(update, now)];
    }

    /**
     The interval has passed: broadcasts the next update, waits for its target and presents it if the wait
     for a vblank works.
     */
    method ChangeColor(now: int, vblank: bool)
      requires Valid() && now == next(clock) + AFTER_VBLANK_US && now - lastChange >= interval
      modifies this
      ensures Valid() && sent == old(sent) + [Send(old(Upcoming(now)), now)]
      ensures var u := old(Upcoming(now));
        && presented == old(presented) + (if vblank then [Presentation(u, next(u.target))] else [])
        && clock == lastChange == if vblank then next(u.target) else u.target
    {
      var update := Broadcast(now);
      clock := update.target;
      if vblank {
        clock := next(clock);
        presented := presented + [Presentation(update, clock)];
      }
      lastChange := clock;
    }

    /**
     One iteration; `first` and `second` say whether its waits for a vblank work. An update goes out when
     the interval has passed, and is presented at the vblank after its target.
     */
    method Iterate(first: bool, second: bool) returns (running: bool)
      requires Valid()
      modifies this
      ensures Valid() && running == first
      ensures var now := next(old(clock)) + AFTER_VBLANK_US;
        var u := old(Upcoming(now));
        var due := first && now - old(lastChange) >= interval;
        && sent == old(sent) + (if due then [Send(u, now)] else [])
        && presented == old(presented) + (if due && second then [Presentation(u, next(u.target))] else [])
        && clock == (if !first then old(clock) else if !due then now else if second then next(u.target) else u.target)
        && lastChange == (if due then clock else old(lastChange))
    {
      if !first {
        return false;
      }
      var now := next(clock) + AFTER_VBLANK_US;
      var elapsed := now - lastChange;
      if elapsed >= interval {
        ChangeColor(now, second);
      } else {
        clock := now;
      }
      return true;
    }
  }
}
