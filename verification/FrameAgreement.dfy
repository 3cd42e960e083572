/**
 When all nodes of `framesync` present what reaches them at the same vblank. The displays are locked to one
 another and the clocks agree; updates reach a secondary after some latency, or not at all.
 */
module FrameAgreement {
  import opened RealMath
  import opened Vblank
  import opened FrameSecondary
  import opened FramePrimary

  /** A secondary: when its loop started, and how long each update took to reach it. */
  datatype Node = Node(start: int, latencies: seq<nat>)

  function Arrivals(sends: seq<Send>, latencies: seq<nat>): (arrivals: seq<Arrival>)
    requires |latencies| == |sends|
  {
    seq(|sends|, k requires 0 <= k < |sends| => Arrival(sends[k].update, sends[k].at + latencies[k]))
  }

  /** The secondary presents update `k` when the primary does. */
  predicate AgreesOn(g: Grid, sends: seq<Send>, node: Node, k: nat)
    requires Sound(g) && |node.latencies| == |sends| && k < |sends|
  {
    Schedule(Locked(g), node.start, Arrivals(sends, node.latencies))[k]
      == Presentation(sends[k].update, Next(g, sends[k].update.target))
  }

  /** An update with this latency arrives by the last vblank that is not after its target. */
  predicate InTime(g: Grid, ahead: nat, latency: nat)
    requires Sound(g)
  {
    latency + AFTER_VBLANK_US <= (AFTER_VBLANK_US + ahead) / g.period * g.period
  }

  /** The secondary was up before the first update was sent. */
  predicate Up(sends: seq<Send>, node: Node) {
    sends != [] ==> node.start < sends[0].at
  }

  // ----- one update

  lemma AtSum(g: Grid, m: int, k: int)
    ensures At(g, m + k) == At(g, m) + k * g.period
  {
  }

  lemma IndexShift(g: Grid, m: int, x: nat)
    requires Sound(g)
    ensures Index(g, At(g, m) + x) == m + x / g.period
    ensures Last(g, At(g, m) + x) == At(g, m) + x / g.period * g.period
  {
    var q := x / g.period;
    assert q * g.period <= x < q * g.period + g.period;
    AtSum(g, m, q);
    AtSum(g, m + q, 1);
    AtMostIff(g, m + q, At(g, m) + x);
    AtMostIff(g, m + q + 1, At(g, m) + x);
  }

  /** By how many vblanks the pickup of an arrival at `at` comes after the last one that is not after the target. */
  function PickupsLate(g: Grid, target: int, at: int): int
    requires Sound(g)
  {
    Index(g, at - 1) + 1 - Index(g, target)
  }

  lemma NextAfterPickup(g: Grid, target: int, j: int)
    requires Sound(g)
    ensures Next(g, Max(At(g, j), target)) == Next(g, target) + Max(0, j - Index(g, target)) * g.period
  {
    AtMostIff(g, j, target);
    IndexOfAt(g, j);
    AtSum(g, Index(g, target) + 1, j - Index(g, target));
  }

  /** The exact lateness of an update that finds the loop free: one vblank for every vblank its pickup is late. */
  lemma Lateness(g: Grid, free: int, u: Update, at: int)
    requires Sound(g) && free < at
    ensures Finish(Locked(g), free, Arrival(u, at))
         == Next(g, u.target) + Max(0, PickupsLate(g, u.target, at)) * g.period
  {
    NextAfterPickup(g, u.target, Index(g, at - 1) + 1);
  }

  /** A loop that is not free yet, because it is at a vblank or has one to wait for, is never earlier. */
  lemma AtLeastLate(g: Grid, free: int, u: Update, at: int)
    requires Sound(g) && (free < at || free == Last(g, free))
    ensures Finish(Locked(g), free, Arrival(u, at))
         >= Next(g, u.target) + Max(0, PickupsLate(g, u.target, at)) * g.period
  {
    var j := Index(g, at - 1) + 1;
    NextAfterPickup(g, u.target, j);
    if at <= free {
      AtMostIff(g, Index(g, free), at - 1);
      ProductOrder(j, Index(g, free), g.period);
      NextMonotone(g, Max(At(g, j), u.target), Max(free, u.target));
    }
  }

  /** The same in terms of the latency: how many vblanks an update comes too late. */
  function PeriodsLate(g: Grid, ahead: nat, latency: nat): int
    requires Sound(g)
  {
    (AFTER_VBLANK_US - 1 + latency) / g.period + 1 - (AFTER_VBLANK_US + ahead) / g.period
  }

  lemma QuotientBelow(x: int, d: int, q: int)
    requires d > 0
    ensures x / d < q <==> x < q * d
  {
    var r := x / d;
    assert r * d <= x < r * d + d;
    if r < q {
      ProductOrder(r + 1, q, d);
    } else {
      ProductOrder(q, r, d);
    }
  }

  lemma InTimeIff(g: Grid, ahead: nat, latency: nat)
    requires Sound(g)
    ensures InTime(g, ahead, latency) <==> PeriodsLate(g, ahead, latency) <= 0
  {
    QuotientBelow(AFTER_VBLANK_US - 1 + latency, g.period, (AFTER_VBLANK_US + ahead) / g.period);
  }

  lemma PickupsLateIsPeriodsLate(g: Grid, ahead: nat, s: Send, latency: nat)
    requires Sound(g) && Scheduled(Locked(g), ahead, s)
    ensures PickupsLate(g, s.update.target, s.at + latency) == PeriodsLate(g, ahead, latency)
  {
    var m := Index(g, s.at - AFTER_VBLANK_US - 1) + 1;
    assert s.at - AFTER_VBLANK_US == At(g, m);
    IndexShift(g, m, AFTER_VBLANK_US + ahead);
    IndexShift(g, m, AFTER_VBLANK_US - 1 + latency);
  }

  lemma SentAtLeastLate(g: Grid, ahead: nat, free: int, s: Send, latency: nat)
    requires Sound(g) && Scheduled(Locked(g), ahead, s) && (free < s.at + latency || free == Last(g, free))
    ensures Finish(Locked(g), free, Arrival(s.update, s.at + latency))
         >= Next(g, s.update.target) + Max(0, PeriodsLate(g, ahead, latency)) * g.period
  {
    PickupsLateIsPeriodsLate(g, ahead, s, latency);
    AtLeastLate(g, free, s.update, s.at + latency);
  }

  lemma OneUpdate(g: Grid, ahead: nat, free: int, s: Send, latency: nat)
    requires Sound(g) && free < s.at && Scheduled(Locked(g), ahead, s)
    ensures var finish := Finish(Locked(g), free, Arrival(s.update, s.at + latency));
      && finish == Next(g, s.update.target) + Max(0, PeriodsLate(g, ahead, latency)) * g.period
      && (finish == Next(g, s.update.target) <==> InTime(g, ahead, latency))
  {
    Lateness(g, free, s.update, s.at + latency);
    PickupsLateIsPeriodsLate(g, ahead, s, latency);
    InTimeIff(g, ahead, latency);
    ZeroPeriods(Max(0, PeriodsLate(g, ahead, latency)), g.period);
  }

  lemma ZeroPeriods(n: nat, period: int)
    requires period > 0
    ensures n * period == 0 <==> n == 0
    ensures n * period >= 0
  {
  }

  // ----- whole runs

  lemma {:induction false} ScheduleAt(next: int -> int, start: int, arrivals: seq<Arrival>, k: nat)
    requires k < |arrivals|
    ensures Schedule(next, start, arrivals)[k]
         == Presentation(arrivals[k].update, FreeAt(next, start, arrivals[..k + 1]))
    decreases |arrivals|
  {
    var n := |arrivals| - 1;
    if k == n {
      assert arrivals[..n + 1] == arrivals;
    } else {
      ScheduleAt(next, start, arrivals[..n], k);
      assert arrivals[..n][..k + 1] == arrivals[..k + 1];
    }
  }

  lemma AgreesOnIff(g: Grid, sends: seq<Send>, node: Node, k: nat)
    requires Sound(g) && |node.latencies| == |sends| && k < |sends|
    ensures AgreesOn(g, sends, node, k)
       <==> FreeAt(Locked(g), node.start, Arrivals(sends, node.latencies)[..k + 1]) == Next(g, sends[k].update.target)
  {
    ScheduleAt(Locked(g), node.start, Arrivals(sends, node.latencies), k);
  }

  /** As long as the secondary agrees, its loop is free before the next update is sent. */
  lemma FreeBeforeSend(g: Grid, interval: int, ahead: nat, sends: seq<Send>, node: Node, k: nat)
    requires Sound(g) && Paced(Locked(g), interval, ahead, sends) && Up(sends, node) && |node.latencies| == |sends|
    requires k < |sends|
    requires k > 0 ==> AgreesOn(g, sends, node, k - 1)
    ensures FreeAt(Locked(g), node.start, Arrivals(sends, node.latencies)[..k]) < sends[k].at
  {
    if k > 0 {
      AgreesOnIff(g, sends, node, k - 1);
      assert Follows(Locked(g), interval, sends[k - 1], sends[k]);
    }
  }

  lemma FinishTogether(g: Grid, interval: int, ahead: nat, sends: seq<Send>, k: nat, free: int, a: Arrival,
                       latency: nat)
    requires Sound(g) && Paced(Locked(g), interval, ahead, sends) && k < |sends|
    requires free < sends[k].at && a == Arrival(sends[k].update, sends[k].at + latency)
    ensures Finish(Locked(g), free, a) == Next(g, sends[k].update.target) <==> InTime(g, ahead, latency)
  {
    assert Scheduled(Locked(g), ahead, sends[k]);
    OneUpdate(g, ahead, free, sends[k], latency);
  }

  lemma AgreesOnNext(g: Grid, interval: int, ahead: nat, sends: seq<Send>, node: Node, k: nat)
    requires Sound(g) && Paced(Locked(g), interval, ahead, sends) && Up(sends, node) && |node.latencies| == |sends|
    requires k < |sends|
    requires k > 0 ==> AgreesOn(g, sends, node, k - 1)
    ensures AgreesOn(g, sends, node, k) <==> InTime(g, ahead, node.latencies[k])
  {
    var arrivals := Arrivals(sends, node.latencies);
    FreeBeforeSend(g, interval, ahead, sends, node, k);
    AgreesOnIff(g, sends, node, k);
    ScheduleNext(Locked(g), node.start, arrivals, k);
    FinishTogether(g, interval, ahead, sends, k, FreeAt(Locked(g), node.start, arrivals[..k]), arrivals[k],
                   node.latencies[k]);
  }

  /** A secondary agrees on the first `n` updates exactly when all of them came in time. */
  lemma {:induction false} AgreesOnFirst(g: Grid, interval: int, ahead: nat, sends: seq<Send>, node: Node, n: nat)
    requires Sound(g) && Paced(Locked(g), interval, ahead, sends) && Up(sends, node) && |node.latencies| == |sends|
    requires n <= |sends|
    ensures (forall k :: 0 <= k < n ==> AgreesOn(g, sends, node, k))
       <==> (forall k :: 0 <= k < n ==> InTime(g, ahead, node.latencies[k]))
  {
    if n == 0 {
    } else {
      AgreesOnFirst(g, interval, ahead, sends, node, n - 1);
      if forall k :: 0 <= k < n - 1 ==> AgreesOn(g, sends, node, k) {
        AgreesOnNext(g, interval, ahead, sends, node, n - 1);
      }
    }
  }

  lemma FreeIsVblank(g: Grid, start: int, arrivals: seq<Arrival>)
    requires Sound(g)
    ensures var free := FreeAt(Locked(g), start, arrivals); arrivals == [] || free == Last(g, free)
  {
    if arrivals != [] {
      var k := |arrivals| - 1;
      var before := FreeAt(Locked(g), start, arrivals[..k]);
      var wake := Max(Pickup(Locked(g), before, arrivals[k].at), arrivals[k].update.target);
      IndexOfAt(g, Index(g, wake) + 1);
    }
  }

  // ----- lost updates, and updates that overtake one another

  /** The positions of the updates that reach a node, in the order in which they arrive. */
  ghost predicate Positions(received: seq<nat>, n: nat) {
    && (forall k :: 0 <= k < |received| ==> received[k] < n)
    && (forall j, k :: 0 <= j < k < |received| ==> received[j] != received[k])
  }

  ghost predicate Increasing(received: seq<nat>) {
    forall j, k :: 0 <= j < k < |received| ==> received[j] < received[k]
  }

  ghost function Received(sends: seq<Send>, received: seq<nat>): seq<Send>
    requires Positions(received, |sends|)
  {
    seq(|received|, k requires 0 <= k < |received| => sends[received[k]])
  }

  lemma {:induction false} LaterFollows(next: int -> int, interval: int, ahead: nat, sends: seq<Send>, j: nat, k: nat)
    requires Ticks(next) && Paced(next, interval, ahead, sends) && j < k < |sends|
    ensures Follows(next, interval, sends[j], sends[k]) && sends[j].at < sends[k].at
    decreases k
  {
    assert Follows(next, interval, sends[k - 1], sends[k]);
    assert Scheduled(next, ahead, sends[k - 1]) && Scheduled(next, ahead, sends[j]);
    if j < k - 1 {
      LaterFollows(next, interval, ahead, sends, j, k - 1);
    }
  }

  /** What is left of a paced run when updates get lost is paced. */
  lemma LossKeepsPace(next: int -> int, interval: int, ahead: nat, sends: seq<Send>, received: seq<nat>)
    requires Ticks(next) && Paced(next, interval, ahead, sends) && Positions(received, |sends|) && Increasing(received)
    ensures Paced(next, interval, ahead, Received(sends, received))
  {
    var left := Received(sends, received);
    forall k | 0 <= k < |left| ensures Scheduled(next, ahead, left[k]) {
      assert left[k] == sends[received[k]];
    }
    forall k | 0 < k < |left| ensures Follows(next, interval, left[k - 1], left[k]) {
      LaterFollows(next, interval, ahead, sends, received[k - 1], received[k]);
    }
  }

  lemma UpForReceived(next: int -> int, interval: int, ahead: nat, sends: seq<Send>, received: seq<nat>, node: Node)
    requires Ticks(next) && Paced(next, interval, ahead, sends) && Positions(received, |sends|) && Up(sends, node)
    ensures Up(Received(sends, received), node)
  {
    if received != [] && received[0] > 0 {
      LaterFollows(next, interval, ahead, sends, 0, received[0]);
    }
  }

  /** What the node gets, and when: any of the updates, in any order, listed as they arrive. */
  ghost predicate Delivered(sends: seq<Send>, node: Node, received: seq<nat>) {
    && Up(sends, node) && Positions(received, |sends|) && |node.latencies| == |received|
    && Sorted(Arrivals(Received(sends, received), node.latencies))
  }

  lemma FreeOrAtVblank(g: Grid, interval: int, ahead: nat, sends: seq<Send>, node: Node, received: seq<nat>, k: nat)
    requires Sound(g) && Paced(Locked(g), interval, ahead, sends) && Delivered(sends, node, received)
    requires k < |received|
    ensures var free := FreeAt(Locked(g), node.start, Arrivals(Received(sends, received), node.latencies)[..k]);
      free < sends[received[k]].at + node.latencies[k] || free == Last(g, free)
  {
    var arrivals := Arrivals(Received(sends, received), node.latencies);
    if k == 0 {
      LockedTicks(g);
      UpForReceived(Locked(g), interval, ahead, sends, received, node);
      assert arrivals[..0] == [];
    } else {
      FreeIsVblank(g, node.start, arrivals[..k]);
    }
  }

  /**
   Whatever got lost or overtook: no update is presented earlier than its latency makes it, however long it
   waited for those that were taken before it.
   */
  lemma NeverEarlier(g: Grid, interval: int, ahead: nat, sends: seq<Send>, node: Node, received: seq<nat>, k: nat)
    requires Sound(g) && Paced(Locked(g), interval, ahead, sends) && Delivered(sends, node, received)
    requires k < |received|
    ensures Schedule(Locked(g), node.start, Arrivals(Received(sends, received), node.latencies))[k].at
         >= Next(g, sends[received[k]].update.target) + Max(0, PeriodsLate(g, ahead, node.latencies[k])) * g.period
  {
    var s, arrivals := sends[received[k]], Arrivals(Received(sends, received), node.latencies);
    FreeOrAtVblank(g, interval, ahead, sends, node, received, k);
    ScheduleAt(Locked(g), node.start, arrivals, k);
    ScheduleNext(Locked(g), node.start, arrivals, k);
    assert Scheduled(Locked(g), ahead, s);
    SentAtLeastLate(g, ahead, FreeAt(Locked(g), node.start, arrivals[..k]), s, node.latencies[k]);
  }

  /** The node presents everything it gets at the vblanks at which the primary presents it. */
  ghost predicate Agrees(g: Grid, sends: seq<Send>, node: Node, received: seq<nat>)
    requires Sound(g) && Delivered(sends, node, received)
  {
    forall k :: 0 <= k < |received| ==> AgreesOn(g, Received(sends, received), node, k)
  }

  ghost predicate AllInTime(g: Grid, ahead: nat, node: Node)
    requires Sound(g)
  {
    forall k :: 0 <= k < |node.latencies| ==> InTime(g, ahead, node.latencies[k])
  }

  lemma {:induction false} ScheduleIncreases(next: int -> int, start: int, arrivals: seq<Arrival>, j: nat, k: nat)
    requires Ticks(next) && j < k < |arrivals|
    ensures FreeAt(next, start, arrivals[..j + 1]) < FreeAt(next, start, arrivals[..k + 1])
    decreases k
  {
    ScheduleNext(next, start, arrivals, k);
    if j < k - 1 {
      ScheduleIncreases(next, start, arrivals, j, k - 1);
    }
  }

  /** The vblank of a later update is a later one. */
  lemma LaterTarget(g: Grid, interval: int, ahead: nat, sends: seq<Send>, j: nat, k: nat)
    requires Sound(g) && Paced(Locked(g), interval, ahead, sends) && j < k < |sends|
    ensures Next(g, sends[j].update.target) < sends[k].at <= sends[k].update.target < Next(g, sends[k].update.target)
  {
    LockedTicks(g);
    LaterFollows(Locked(g), interval, ahead, sends, j, k);
    NextIsAfter(g, sends[k].update.target);
    assert Scheduled(Locked(g), ahead, sends[k]);
  }

  /** A node that agrees on all it gets got it in the order in which it was sent. */
  lemma AgreementNeedsOrder(g: Grid, interval: int, ahead: nat, sends: seq<Send>, node: Node, received: seq<nat>)
    requires Sound(g) && Paced(Locked(g), interval, ahead, sends) && Delivered(sends, node, received)
    requires Agrees(g, sends, node, received)
    ensures Increasing(received)
  {
    LockedTicks(g);
    var left := Received(sends, received);
    forall j, k | 0 <= j < k < |received| ensures received[j] < received[k] {
      AgreesOnIff(g, left, node, j);
      AgreesOnIff(g, left, node, k);
      assert AgreesOn(g, left, node, j) && AgreesOn(g, left, node, k);
      ScheduleIncreases(Locked(g), node.start, Arrivals(left, node.latencies), j, k);
      if received[j] > received[k] {
        LaterTarget(g, interval, ahead, sends, received[k], received[j]);
      }
    }
  }

  lemma LatencyWithinAhead(g: Grid, ahead: nat, latency: nat)
    requires Sound(g) && InTime(g, ahead, latency)
    ensures latency <= ahead
  {
    var x := AFTER_VBLANK_US + ahead;
    assert x / g.period * g.period <= x;
  }

  /** Updates that come in time do not overtake one another. */
  lemma InTimeInOrder(g: Grid, interval: int, ahead: nat, sends: seq<Send>, node: Node, received: seq<nat>)
    requires Sound(g) && Paced(Locked(g), interval, ahead, sends) && Delivered(sends, node, received)
    requires AllInTime(g, ahead, node)
    ensures Increasing(received)
  {
    var left := Received(sends, received);
    var arrivals := Arrivals(left, node.latencies);
    forall j, k | 0 <= j < k < |received| ensures received[j] < received[k] {
      assert arrivals[j].at <= arrivals[k].at;
      LatencyWithinAhead(g, ahead, node.latencies[k]);
      assert Scheduled(Locked(g), ahead, sends[received[k]]);
      if received[j] > received[k] {
        NextIsAfter(g, sends[received[k]].update.target);
        LaterTarget(g, interval, ahead, sends, received[k], received[j]);
      }
    }
  }

  lemma NodeAgreesIff(g: Grid, interval: int, ahead: nat, sends: seq<Send>, node: Node, received: seq<nat>)
    requires Sound(g) && Paced(Locked(g), interval, ahead, sends) && Delivered(sends, node, received)
    ensures Agrees(g, sends, node, received) <==> AllInTime(g, ahead, node)
  {
    if Agrees(g, sends, node, received) {
      AgreementNeedsOrder(g, interval, ahead, sends, node, received);
    }
    if AllInTime(g, ahead, node) {
      InTimeInOrder(g, interval, ahead, sends, node, received);
    }
    if Increasing(received) {
      LockedTicks(g);
      LossKeepsPace(Locked(g), interval, ahead, sends, received);
      UpForReceived(Locked(g), interval, ahead, sends, received, node);
      AgreesOnFirst(g, interval, ahead, Received(sends, received), node, |received|);
    }
  }

  /**
   Whatever updates get lost or overtake one another on the way to whichever nodes: all nodes present
   everything that reaches them together with the primary exactly when every latency, with the pause before
   sending, fits in the whole periods that the pause and the time ahead add up to.
   */
  lemma AllAgreeIff(g: Grid, interval: int, ahead: nat, sends: seq<Send>, nodes: seq<Node>, received: seq<seq<nat>>)
    requires Sound(g) && Paced(Locked(g), interval, ahead, sends) && |received| == |nodes|
    requires forall i :: 0 <= i < |nodes| ==> Delivered(sends, nodes[i], received[i])
    ensures (forall i :: 0 <= i < |nodes| ==> Agrees(g, sends, nodes[i], received[i]))
       <==> (forall i :: 0 <= i < |nodes| ==> AllInTime(g, ahead, nodes[i]))
  {
    forall i | 0 <= i < |nodes| ensures Agrees(g, sends, nodes[i], received[i]) <==> AllInTime(g, ahead, nodes[i]) {
      NodeAgreesIff(g, interval, ahead, sends, nodes[i], received[i]);
    }
  }

  /** Updates that come in time are presented before the next one is sent: nothing waits in a queue. */
  lemma QueueEmptyAtSend(g: Grid, interval: int, ahead: nat, sends: seq<Send>, node: Node, k: nat)
    requires Sound(g) && Paced(Locked(g), interval, ahead, sends) && Up(sends, node) && |node.latencies| == |sends|
    requires 0 < k < |sends|
    requires forall j :: 0 <= j < |sends| ==> InTime(g, ahead, node.latencies[j])
    ensures Schedule(Locked(g), node.start, Arrivals(sends, node.latencies))[k - 1].at < sends[k].at
  {
    AgreesOnFirst(g, interval, ahead, sends, node, |sends|);
    AgreesOnIff(g, sends, node, k - 1);
    assert Follows(Locked(g), interval, sends[k - 1], sends[k]);
    assert AgreesOn(g, sends, node, k - 1);
  }

  /** These presentations of what reaches a node are those of the primary. */
  ghost predicate Together(g: Grid, sends: seq<Send>, received: seq<nat>, presented: seq<Presentation>)
    requires Sound(g) && Positions(received, |sends|)
  {
    && |presented| == |received|
    && forall k :: 0 <= k < |received| ==> PresentedAsSent(g, sends[received[k]], presented[k])
  }

  predicate PresentedAsSent(g: Grid, s: Send, p: Presentation)
    requires Sound(g)
  {
    p == Presentation(s.update, Next(g, s.update.target))
  }

  lemma AgreesIsTogether(g: Grid, sends: seq<Send>, node: Node, received: seq<nat>, presented: seq<Presentation>)
    requires Sound(g) && Delivered(sends, node, received)
    requires presented == Schedule(Locked(g), node.start, Arrivals(Received(sends, received), node.latencies))
    ensures Agrees(g, sends, node, received) <==> Together(g, sends, received, presented)
  {
    var left := Received(sends, received);
    forall k | 0 <= k < |received|
      ensures AgreesOn(g, left, node, k) <==> PresentedAsSent(g, sends[received[k]], presented[k])
    {
      assert left[k] == sends[received[k]];
    }
  }

  /**
   The loop itself, run on what reaches a node: it presents all of it with the primary exactly when all came
   in time.
   */
  method RunNode(g: Grid, ghost interval: int, ghost ahead: nat, ghost sends: seq<Send>, ghost node: Node,
                 ghost received: seq<nat>, start: int, arrivals: seq<Arrival>)
      returns (presented: seq<Presentation>)
    requires Sound(g) && Paced(Locked(g), interval, ahead, sends) && Delivered(sends, node, received)
    requires start == node.start && arrivals == Arrivals(Received(sends, received), node.latencies)
    ensures |presented| == |received|
    ensures Together(g, sends, received, presented) <==> AllInTime(g, ahead, node)
  {
    LockedTicks(g);
    var s := new Secondary(Locked(g), start);
    RunSecondary(s, arrivals);
    presented := s.presented;
    NodeAgreesIff(g, interval, ahead, sends, node, received);
    AgreesIsTogether(g, sends, node, received, presented);
  }

  // ----- which times ahead are enough

  /** One period more than the latency is enough. */
  lemma PeriodOfSlackSuffices(g: Grid, ahead: nat, latency: nat)
    requires Sound(g) && latency + g.period <= ahead
    ensures InTime(g, ahead, latency)
  {
    var x := AFTER_VBLANK_US + ahead;
    assert x / g.period * g.period > x - g.period;
  }

  /**
   At 60 Hz the documented 33 ms allow for almost two periods. The 16 ms the program really defaults to allow
   for no latency at all: an update is one vblank late, and one more for every period of latency.
   */
  lemma DefaultsAt60Hz(phase: int, latency: nat)
    ensures InTime(Grid(phase, 16667), 33000, latency) <==> latency <= 32834
    ensures PeriodsLate(Grid(phase, 16667), 16000, latency) == 1 + (latency + 499) / 16667
    ensures !InTime(Grid(phase, 16667), 16000, latency)
  {
  }
}
