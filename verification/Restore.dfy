/**
 One correction of one PHY as an interleaving: the main thread in `program_phy` and `wait_until_done`, any
 number of runs of the timer handler (the timer is periodic until it is deleted), and Ctrl+C at any
 moment. Every write of a single divider register is a step of its own.
 */
module Restore {

  /** `reset_phy_regs`, run by the timer handler or by the main thread. */
  datatype Writer =
    | Deleting(steps: nat)             // about to delete the timer, then to ramp back in `steps` steps
    | AtTest(left: nat)                // at the test of the ramp loop
    | Writing(left: nat, next: nat)    // in `program_mmio(true)`, before register `next`
    | Restoring(next: nat)             // in `program_mmio(false)`, before register `next`
    | Finished

  datatype Main =
    | RampTest(left: nat)
    | RampWriting(left: nat, next: nat)
    | Arming
    | Waiting
    | Checking                         // past the wait loop, before the second test of the flag
    | Resetting(writer: Writer)
    | Returned

  datatype State = State(regs: seq<int>, shutdown: bool, done: bool, timerLive: bool, main: Main, handlers: seq<Writer>)

  /** The registers hold what `read_registers` saw and no timer is pending. */
  ghost predicate Init(orig: seq<int>, s: State) {
    s.regs == orig && s.main.RampTest? && s.done && !s.timerLive && s.handlers == []
  }

  // ----- steps

  /** A ramp writes values computed from shared state, so any value may reach the register. */
  ghost predicate WritesSome(regs: seq<int>, regs': seq<int>, k: nat) {
    k < |regs| == |regs'| && regs' == regs[k := regs'[k]]
  }

  /** One step of a run of `reset_phy_regs`. */
  ghost predicate WriterStep(orig: seq<int>, s: State, s': State, w: Writer, w': Writer) {
    match w
    case Deleting(steps) =>
      w' == AtTest(steps) && s'.regs == s.regs && s'.done == s.done && !s'.timerLive
    case AtTest(left) =>
      w' == (if left == 0 || s.shutdown then Restoring(0) else Writing(left - 1, 0))
      && s'.regs == s.regs && s'.done == s.done && s'.timerLive == s.timerLive
    case Writing(left, next) =>
      && s'.done == s.done && s'.timerLive == s.timerLive
      && (if next < |orig| then WritesSome(s.regs, s'.regs, next) && w' == Writing(left, next + 1)
          else s'.regs == s.regs && w' == AtTest(left))
    case Restoring(next) =>
      && s'.timerLive == s.timerLive
      && (if next < |orig|
          then next < |s.regs| && s'.regs == s.regs[next := orig[next]]
               && w' == Restoring(next + 1) && s'.done == s.done
          else s'.regs == s.regs && w' == Finished && s'.done)
    case Finished => false
  }

  /** Run `h` of the handler makes a step and becomes `w`. */
  ghost predicate RunSteps(orig: seq<int>, s: State, s': State, h: int, w: Writer) {
    && 0 <= h < |s.handlers| && s'.handlers == s.handlers[h := w]
    && s'.main == s.main && s'.shutdown == s.shutdown && WriterStep(orig, s, s', s.handlers[h], w)
  }

  ghost predicate HandlerStep(orig: seq<int>, s: State, s': State) {
    exists h, w :: RunSteps(orig, s, s', h, w)
  }

  /** The timer expires: another run of the handler starts. */
  ghost predicate Fire(s: State, s': State) {
    s.timerLive && exists steps :: s' == s.(handlers := s.handlers + [Deleting(steps)])
  }

  ghost predicate CtrlC(s: State, s': State) {
    s' == s.(shutdown := true)
  }

  ghost predicate MainStep(orig: seq<int>, s: State, s': State) {
    && s'.shutdown == s.shutdown && s'.handlers == s.handlers
    && match s.main
       case RampTest(left) =>
         s' == s.(main := if left == 0 || s.shutdown then Arming else RampWriting(left - 1, 0))
       case RampWriting(left, next) =>
         && s'.done == s.done && s'.timerLive == s.timerLive
         && (if next < |orig| then WritesSome(s.regs, s'.regs, next) && s'.main == RampWriting(left, next + 1)
             else s'.regs == s.regs && s'.main == RampTest(left))
       case Arming => s' == s.(done := false, timerLive := true, main := Waiting)
       case Waiting => (s.done || s.shutdown) && s' == s.(main := Checking)
       case Checking =>
         if s.shutdown then exists steps :: s' == s.(main := Resetting(Deleting(steps))) else s' == s.(main := Returned)
       case Resetting(w) =>
         if w.Finished? then s' == s.(main := Returned)
         else s'.main.Resetting? && WriterStep(orig, s, s', w, s'.main.writer)
       case Returned => false
  }

  ghost predicate Next(orig: seq<int>, s: State, s': State) {
    MainStep(orig, s, s') || HandlerStep(orig, s, s') || Fire(s, s') || CtrlC(s, s')
  }

  ghost predicate Run(orig: seq<int>, states: seq<State>) {
    && |states| > 0
    && Init(orig, states[0])
    && forall k :: 0 < k < |states| ==> StepTo(orig, states, k)
  }

  /** The step to state `k`. */
  ghost predicate StepTo(orig: seq<int>, states: seq<State>, k: nat)
    requires 0 < k < |states|
  {
    Next(orig, states[k - 1], states[k])
  }

  // ----- the invariant

  /** This run will still write the saved value of register `k`, and after that nothing else to it. */
  predicate Pending(w: Writer, k: nat) {
    w.Deleting? || w.AtTest? || w.Writing? || (w.Restoring? && w.next <= k)
  }

  predicate BeforeWait(m: Main) {
    m.RampTest? || m.RampWriting? || m.Arming?
  }

  ghost predicate WillRestore(s: State, k: nat) {
    || BeforeWait(s.main)
    || s.timerLive
    || (s.main.Resetting? && Pending(s.main.writer, k))
    || exists h :: 0 <= h < |s.handlers| && Pending(s.handlers[h], k)
  }

  predicate Active(w: Writer) {
    !w.Finished?
  }

  /** A run of `reset_phy_regs` that has deleted the timer. */
  predicate Past(w: Writer) {
    !w.Deleting?
  }

  ghost predicate Inv(orig: seq<int>, s: State) {
    && |s.regs| == |orig|
    && (forall k :: 0 <= k < |orig| ==> s.regs[k] == orig[k] || WillRestore(s, k))
    && (BeforeWait(s.main) ==> s.handlers == [] && !s.timerLive)
    && (forall h :: 0 <= h < |s.handlers| && Past(s.handlers[h]) ==> !s.timerLive)
    && (s.main.Resetting? && Past(s.main.writer) ==> !s.timerLive)
    && (s.done && !BeforeWait(s.main) ==> !s.timerLive)
    && (s.main.Waiting? && !s.done ==> s.timerLive || exists h :: 0 <= h < |s.handlers| && Active(s.handlers[h]))
    && (s.main.Checking? ==> s.done || s.shutdown)
    && (s.main.Resetting? ==> s.shutdown && (s.main.writer.Finished? ==> s.done))
    && (s.main.Returned? ==> s.done)
    && (s.done && !s.shutdown && !BeforeWait(s.main) ==> exists h :: 0 <= h < |s.handlers| && s.handlers[h].Finished?)
  }

  lemma InitInv(orig: seq<int>, s: State)
    requires Init(orig, s)
    ensures Inv(orig, s)
  {
  }

  lemma MainInv(orig: seq<int>, s: State, s': State)
    requires Inv(orig, s) && MainStep(orig, s, s')
    ensures Inv(orig, s')
  {
  }

  lemma FireInv(orig: seq<int>, s: State, s': State)
    requires Inv(orig, s) && Fire(s, s')
    ensures Inv(orig, s')
  {
    forall k | 0 <= k < |orig| ensures s'.regs[k] == orig[k] || WillRestore(s', k) {
    }
    var n := |s.handlers|;
    assert Active(s'.handlers[n]);
    assert forall h :: 0 <= h < n ==> s'.handlers[h] == s.handlers[h];
  }

  lemma CtrlCInv(orig: seq<int>, s: State, s': State)
    requires Inv(orig, s) && CtrlC(s, s')
    ensures Inv(orig, s')
  {
    forall k | 0 <= k < |orig| ensures s'.regs[k] == orig[k] || WillRestore(s', k) {
      assert s.regs[k] == orig[k] || WillRestore(s, k);
    }
  }

  lemma RegisterCovered(orig: seq<int>, s: State, s': State, h: int, w: Writer, k: nat)
    requires Inv(orig, s) && RunSteps(orig, s, s', h, w) && k < |orig|
    ensures |s'.regs| == |orig| && (s'.regs[k] == orig[k] || WillRestore(s', k))
  {
    if Pending(w, k) {
      assert Pending(s'.handlers[h], k);
    } else if j :| 0 <= j < |s.handlers| && j != h && Pending(s.handlers[j], k) {
      assert Pending(s'.handlers[j], k);
    } else {
      assert s'.regs[k] == s.regs[k] || s'.regs[k] == orig[k];
    }
  }

  lemma HandlerInv(orig: seq<int>, s: State, s': State)
    requires Inv(orig, s) && HandlerStep(orig, s, s')
    ensures Inv(orig, s')
  {
    var h, w :| RunSteps(orig, s, s', h, w);
    forall k | 0 <= k < |orig| ensures s'.regs[k] == orig[k] || WillRestore(s', k) {
      RegisterCovered(orig, s, s', h, w, k);
    }
    assert s'.handlers[h] == w && (w.Finished? ==> s'.done);
    if s.done && !s.shutdown && !BeforeWait(s.main) {
      var j :| 0 <= j < |s.handlers| && s.handlers[j].Finished?;
      assert s'.handlers[j].Finished?;
    }
  }

  lemma NextInv(orig: seq<int>, s: State, s': State)
    requires Inv(orig, s) && Next(orig, s, s')
    ensures Inv(orig, s')
  {
    if MainStep(orig, s, s') {
      MainInv(orig, s, s');
    } else if HandlerStep(orig, s, s') {
      HandlerInv(orig, s, s');
    } else if Fire(s, s') {
      FireInv(orig, s, s');
    } else {
      CtrlCInv(orig, s, s');
    }
  }

  lemma {:induction false} RunInv(orig: seq<int>, states: seq<State>, i: nat)
    requires Run(orig, states) && i < |states|
    ensures Inv(orig, states[i])
  {
    if i == 0 {
      InitInv(orig, states[0]);
    } else {
      RunInv(orig, states, i - 1);
      assert StepTo(orig, states, i);
      NextInv(orig, states[i - 1], states[i]);
    }
  }

  // ----- results

  /**
   Whatever the order of ramp, timer and Ctrl+C, and however many runs of the handler overlap: once the
   main thread has returned and every run of the handler has ended, every register holds what was
   read, no timer is pending and the PHY is ready for the next correction.
   */
  lemma RestoredWhenAllFinished(orig: seq<int>, states: seq<State>, i: nat)
    requires Run(orig, states) && i < |states|
    requires states[i].main.Returned? && forall h :: 0 <= h < |states[i].handlers| ==> states[i].handlers[h].Finished?
    ensures states[i].regs == orig && states[i].done && !states[i].timerLive
  {
    RunInv(orig, states, i);
  }

  /** Without Ctrl+C and with a timer that expired once, the return of the main thread alone suffices. */
  lemma RestoredOnReturn(orig: seq<int>, states: seq<State>, i: nat)
    requires Run(orig, states) && i < |states|
    requires states[i].main.Returned? && !states[i].shutdown && |states[i].handlers| <= 1
    ensures states[i].regs == orig
  {
    RunInv(orig, states, i);
  }

  /** A step that neither Ctrl+C nor a state repeated in place accounts for. */
  ghost predicate Progress(orig: seq<int>, s: State, s': State) {
    s' != s && (MainStep(orig, s, s') || HandlerStep(orig, s, s') || Fire(s, s'))
  }

  lemma WriterCanStep(orig: seq<int>, s: State, w: Writer) returns (s': State, w': Writer)
    requires |s.regs| == |orig| && Active(w)
    ensures w' != w && s' == s.(regs := s'.regs, done := s'.done, timerLive := s'.timerLive)
    ensures WriterStep(orig, s, s', w, w')
  {
    match w
    case Deleting(steps) => s', w' := s.(timerLive := false), AtTest(steps);
    case AtTest(left) => s', w' := s, if left == 0 || s.shutdown then Restoring(0) else Writing(left - 1, 0);
    case Writing(left, next) =>
      s', w' := s, if next < |orig| then Writing(left, next + 1) else AtTest(left);
    case Restoring(next) =>
      if next < |orig| {
        s', w' := s.(regs := if next < |s.regs| then s.regs[next := orig[next]] else s.regs), Restoring(next + 1);
      } else {
        s', w' := s.(done := true), Finished;
      }
  }

  lemma HandlerCanStep(orig: seq<int>, s: State, h: nat)
    requires |s.regs| == |orig| && h < |s.handlers| && Active(s.handlers[h])
    ensures exists s' :: Progress(orig, s, s')
  {
    var t, w := WriterCanStep(orig, s, s.handlers[h]);
    var s' := t.(handlers := s.handlers[h := w]);
    assert WriterStep(orig, s, s', s.handlers[h], w);
    assert s'.handlers[h] != s.handlers[h];
    assert RunSteps(orig, s, s', h, w);
    assert Progress(orig, s, s');
  }

  /** No run gets stuck: until everything has ended some thread can move, without waiting for Ctrl+C. */
  lemma NeverStuck(orig: seq<int>, states: seq<State>, i: nat)
    requires Run(orig, states) && i < |states|
    requires !states[i].main.Returned? || exists h :: 0 <= h < |states[i].handlers| && Active(states[i].handlers[h])
    ensures exists s' :: Progress(orig, states[i], s')
  {
    var s := states[i];
    RunInv(orig, states, i);
    if h :| 0 <= h < |s.handlers| && Active(s.handlers[h]) {
      HandlerCanStep(orig, s, h);
    } else {
      var s' := MainCanStep(orig, s);
      assert Progress(orig, s, s');
    }
  }

  lemma MainCanStep(orig: seq<int>, s: State) returns (s': State)
    requires Inv(orig, s) && !s.main.Returned? && forall h :: 0 <= h < |s.handlers| ==> !Active(s.handlers[h])
    ensures Progress(orig, s, s')
  {
    match s.main
    case RampTest(left) => s' := s.(main := if left == 0 || s.shutdown then Arming else RampWriting(left - 1, 0));
    case RampWriting(left, next) =>
      s' := s.(main := if next < |orig| then RampWriting(left, next + 1) else RampTest(left));
    case Arming => s' := s.(done := false, timerLive := true, main := Waiting);
    case Waiting =>
      if s.done || s.shutdown {
        s' := s.(main := Checking);
      } else {
        s' := s.(handlers := s.handlers + [Deleting(0)]);
        assert |s'.handlers| != |s.handlers|;
      }
    case Checking => s' := s.(main := if s.shutdown then Resetting(Deleting(0)) else Returned);
    case Resetting(w) =>
      if w.Finished? {
        s' := s.(main := Returned);
      } else {
        var t, w' := WriterCanStep(orig, s, w);
        s' := t.(main := Resetting(w'));
        assert WriterStep(orig, s, s', w, s'.main.writer);
      }
  }

  // ----- how long it takes

  /** Registers from `next` on. */
  function Left(next: nat, n: nat): nat {
    if next < n then n - next else 0
  }

  /** The steps a run of `reset_phy_regs` can still make on `n` registers. */
  function WriterCost(w: Writer, n: nat): nat {
    match w
    case Deleting(steps) => RampCost(steps, n) + 1
    case AtTest(left) => RampCost(left, n)
    case Writing(left, next) => RampCost(left, n) + Left(next, n) + 1
    case Restoring(next) => Left(next, n) + 1
    case Finished => 0
  }

  /** The tests and writes of `left` ramp steps, and the restoring writes. */
  function RampCost(left: nat, n: nat): nat {
    if left == 0 then n + 2 else RampCost(left - 1, n) + n + 2
  }

  /** `bound` is the largest number of steps of a ramp back. */
  function MainCost(m: Main, n: nat, bound: nat): nat {
    match m
    case Waiting => RampCost(bound, n) + 4
    case Checking => RampCost(bound, n) + 3
    case Resetting(w) => WriterCost(w, n) + 1
    case _ => 0
  }

  function HandlersCost(handlers: seq<Writer>, n: nat): nat {
    if handlers == [] then 0 else HandlersCost(handlers[..|handlers| - 1], n) + WriterCost(handlers[|handlers| - 1], n)
  }

  function Cost(s: State, n: nat, bound: nat): nat {
    MainCost(s.main, n, bound) + HandlersCost(s.handlers, n)
  }

  lemma {:induction false} RampCostMonotone(a: nat, b: nat, n: nat)
    requires a <= b
    ensures RampCost(a, n) <= RampCost(b, n)
    decreases b
  {
    if a < b {
      RampCostMonotone(a, b - 1, n);
    }
  }

  lemma RampCostAtLeast(left: nat, n: nat)
    ensures RampCost(left, n) >= n + 2
  {
    RampCostMonotone(0, left, n);
  }

  lemma {:induction false} HandlersCostUpdate(handlers: seq<Writer>, h: nat, w: Writer, n: nat)
    requires h < |handlers|
    ensures HandlersCost(handlers[h := w], n)
         == HandlersCost(handlers, n) - WriterCost(handlers[h], n) + WriterCost(w, n)
    decreases |handlers|
  {
    var k := |handlers| - 1;
    if h == k {
      assert handlers[h := w][..k] == handlers[..k];
    } else {
      HandlersCostUpdate(handlers[..k], h, w, n);
      assert handlers[h := w][..k] == handlers[..k][h := w];
    }
  }

  lemma WriterStepCosts(orig: seq<int>, s: State, s': State, w: Writer, w': Writer)
    requires WriterStep(orig, s, s', w, w')
    ensures WriterCost(w', |orig|) < WriterCost(w, |orig|)
  {
    if w.AtTest? {
      RampCostAtLeast(w.left, |orig|);
    }
  }

  /** The timer is deleted for good, so that no more runs of the handler start. */
  predicate TimerGone(s: State) {
    !s.timerLive && !BeforeWait(s.main)
  }

  /** A ramp back that the main thread starts has at most `bound` steps. */
  predicate RampWithin(s: State, s': State, bound: nat) {
    s.main.Checking? && s'.main.Resetting? && s'.main.writer.Deleting? ==> s'.main.writer.steps <= bound
  }

  predicate StepWithin(states: seq<State>, k: nat, bound: nat)
    requires 0 < k < |states|
  {
    RampWithin(states[k - 1], states[k], bound)
  }

  /** A thread has made this step; otherwise it was Ctrl+C or a timer expiry. */
  ghost predicate ThreadStep(orig: seq<int>, s: State, s': State) {
    MainStep(orig, s, s') || HandlerStep(orig, s, s')
  }

  lemma MainStepCosts(orig: seq<int>, s: State, s': State, bound: nat)
    requires MainStep(orig, s, s') && TimerGone(s) && RampWithin(s, s', bound)
    ensures TimerGone(s') && Cost(s', |orig|, bound) < Cost(s, |orig|, bound)
  {
    if s.main.Checking? && s.shutdown {
      RampCostMonotone(s'.main.writer.steps, bound, |orig|);
    } else if s.main.Resetting? && !s.main.writer.Finished? {
      WriterStepCosts(orig, s, s', s.main.writer, s'.main.writer);
    }
  }

  lemma HandlerStepCosts(orig: seq<int>, s: State, s': State, bound: nat)
    requires HandlerStep(orig, s, s') && TimerGone(s)
    ensures TimerGone(s') && Cost(s', |orig|, bound) < Cost(s, |orig|, bound)
  {
    var h, w :| RunSteps(orig, s, s', h, w);
    WriterStepCosts(orig, s, s', s.handlers[h], w);
    HandlersCostUpdate(s.handlers, h, w, |orig|);
  }

  lemma StepCosts(orig: seq<int>, s: State, s': State, bound: nat)
    requires Next(orig, s, s') && TimerGone(s) && RampWithin(s, s', bound)
    ensures TimerGone(s')
    ensures Cost(s', |orig|, bound) + (if ThreadStep(orig, s, s') then 1 else 0) <= Cost(s, |orig|, bound)
  {
    if MainStep(orig, s, s') {
      MainStepCosts(orig, s, s', bound);
    } else if HandlerStep(orig, s, s') {
      HandlerStepCosts(orig, s, s', bound);
    }
  }

  lemma StepOfRunCosts(orig: seq<int>, states: seq<State>, j: nat, bound: nat)
    requires Run(orig, states) && 0 < j < |states|
    requires TimerGone(states[j - 1]) && RampWithin(states[j - 1], states[j], bound)
    ensures TimerGone(states[j])
    ensures Cost(states[j], |orig|, bound) + (if ThreadStep(orig, states[j - 1], states[j]) then 1 else 0)
         <= Cost(states[j - 1], |orig|, bound)
  {
    assert StepTo(orig, states, j);
    StepCosts(orig, states[j - 1], states[j], bound);
  }

  /** Which steps of the run were made by a thread: entry `k` is for the step to state `k`. */
  ghost function Moves(orig: seq<int>, states: seq<State>): seq<bool> {
    seq(|states|, k requires 0 <= k < |states| => k > 0 && ThreadStep(orig, states[k - 1], states[k]))
  }

  function Count(moves: seq<bool>, i: nat, j: nat): nat
    requires i <= j < |moves|
  {
    if i == j then 0 else Count(moves, i, j - 1) + if moves[j] then 1 else 0
  }

  predicate Drops(costs: seq<nat>, moves: seq<bool>, k: nat)
    requires 0 < k < |costs| == |moves|
  {
    costs[k] + (if moves[k] then 1 else 0) <= costs[k - 1]
  }

  lemma {:induction false} CountDrops(costs: seq<nat>, moves: seq<bool>, i: nat, j: nat)
    requires i <= j < |costs| == |moves| && forall k :: i < k <= j ==> Drops(costs, moves, k)
    ensures Count(moves, i, j) + costs[j] <= costs[i]
    decreases j
  {
    if i < j {
      CountDrops(costs, moves, i, j - 1);
      assert Drops(costs, moves, j);
    }
  }

  lemma {:induction false} TimerStaysGone(orig: seq<int>, states: seq<State>, i: nat, j: nat)
    requires Run(orig, states) && i <= j < |states| && TimerGone(states[i])
    ensures TimerGone(states[j])
    decreases j
  {
    if i < j {
      TimerStaysGone(orig, states, i, j - 1);
      assert StepTo(orig, states, j);
    }
  }

  function Costs(states: seq<State>, n: nat, bound: nat): seq<nat> {
    seq(|states|, k requires 0 <= k < |states| => Cost(states[k], n, bound))
  }

  lemma DropsAt(orig: seq<int>, states: seq<State>, i: nat, k: nat, bound: nat)
    requires Run(orig, states) && i < k < |states| && TimerGone(states[i]) && StepWithin(states, k, bound)
    ensures Drops(Costs(states, |orig|, bound), Moves(orig, states), k)
  {
    TimerStaysGone(orig, states, i, k - 1);
    StepOfRunCosts(orig, states, k, bound);
  }

  /**
   Once the timer is deleted the threads together make at most as many more steps as the cost of that state,
   whatever their order and however often Ctrl+C comes.
   */
  lemma EndsOnceTimerGone(orig: seq<int>, states: seq<State>, i: nat, j: nat, bound: nat)
    requires Run(orig, states) && i <= j < |states| && TimerGone(states[i])
    requires forall k :: i < k <= j ==> StepWithin(states, k, bound)
    ensures Count(Moves(orig, states), i, j) + Cost(states[j], |orig|, bound) <= Cost(states[i], |orig|, bound)
  {
    forall k | i < k <= j ensures Drops(Costs(states, |orig|, bound), Moves(orig, states), k) {
      assert StepWithin(states, k, bound);
      DropsAt(orig, states, i, k, bound);
    }
    CountDrops(Costs(states, |orig|, bound), Moves(orig, states), i, j);
  }

  lemma {:induction false} NoHandlersLeft(handlers: seq<Writer>, n: nat)
    requires HandlersCost(handlers, n) == 0
    ensures forall h :: 0 <= h < |handlers| ==> handlers[h].Finished?
  {
    if handlers != [] {
      var k := |handlers| - 1;
      var last := handlers[k];
      match last
      case Deleting(steps) =>
      case AtTest(left) => RampCostAtLeast(left, n);
      case Writing(left, next) =>
      case Restoring(next) =>
      case Finished =>
      NoHandlersLeft(handlers[..k], n);
    }
  }

  /** When the steps are used up everything has ended, and every register is back. */
  lemma RestoredWhenUsedUp(orig: seq<int>, states: seq<State>, i: nat, bound: nat)
    requires Run(orig, states) && i < |states| && TimerGone(states[i]) && Cost(states[i], |orig|, bound) == 0
    ensures states[i].main.Returned? && states[i].regs == orig && states[i].done
  {
    NoHandlersLeft(states[i].handlers, |orig|);
    RestoredWhenAllFinished(orig, states, i);
  }

  // ----- after Ctrl+C

  /** The steps of a run of `reset_phy_regs` once Ctrl+C has come: no ramp starts another step. */
  function WriterHalt(w: Writer, n: nat): nat {
    match w
    case Deleting(_) => n + 3
    case AtTest(_) => n + 2
    case Writing(_, next) => Left(next, n) + n + 3
    case Restoring(next) => Left(next, n) + 1
    case Finished => 0
  }

  /** The steps of the main thread once Ctrl+C has come. */
  function MainHalt(m: Main, n: nat): nat {
    match m
    case RampTest(_) => n + 8
    case RampWriting(_, next) => Left(next, n) + n + 9
    case Arming => n + 7
    case Waiting => n + 6
    case Checking => n + 5
    case Resetting(w) => WriterHalt(w, n) + 1
    case Returned => 0
  }

  lemma WriterHalts(orig: seq<int>, s: State, s': State, w: Writer, w': Writer)
    requires s.shutdown && WriterStep(orig, s, s', w, w')
    ensures WriterHalt(w', |orig|) < WriterHalt(w, |orig|)
  {
  }

  lemma MainHalts(orig: seq<int>, s: State, s': State)
    requires s.shutdown && Next(orig, s, s')
    ensures s'.shutdown
    ensures MainHalt(s'.main, |orig|) + (if s'.main != s.main then 1 else 0) <= MainHalt(s.main, |orig|)
  {
    if MainStep(orig, s, s') && s.main.Resetting? && !s.main.writer.Finished? {
      WriterHalts(orig, s, s', s.main.writer, s'.main.writer);
    }
  }

  lemma {:induction false} StaysShutDown(orig: seq<int>, states: seq<State>, i: nat, j: nat)
    requires Run(orig, states) && i <= j < |states| && states[i].shutdown
    ensures states[j].shutdown
    decreases j
  {
    if i < j {
      StaysShutDown(orig, states, i, j - 1);
      assert StepTo(orig, states, j);
    }
  }

  /** Which steps of the run the main thread made. */
  function MainMoves(states: seq<State>): seq<bool> {
    seq(|states|, k requires 0 <= k < |states| => k > 0 && states[k].main != states[k - 1].main)
  }

  function MainHaltsOf(states: seq<State>, n: nat): seq<nat> {
    seq(|states|, k requires 0 <= k < |states| => MainHalt(states[k].main, n))
  }

  /**
   After Ctrl+C, whenever it comes and however long the ramps still are, the main thread makes at most as many
   steps as two writes of every register and nine more, and what the runs of the handler do meanwhile makes no
   difference.
   */
  lemma MainEndsAfterCtrlC(orig: seq<int>, states: seq<State>, i: nat, j: nat)
    requires Run(orig, states) && i <= j < |states| && states[i].shutdown
    ensures Count(MainMoves(states), i, j) + MainHalt(states[j].main, |orig|) <= MainHalt(states[i].main, |orig|)
    ensures MainHalt(states[i].main, |orig|) <= 2 * |orig| + 9
  {
    forall k | i < k <= j ensures Drops(MainHaltsOf(states, |orig|), MainMoves(states), k) {
      StaysShutDown(orig, states, i, k - 1);
      assert StepTo(orig, states, k);
      MainHalts(orig, states[k - 1], states[k]);
    }
    CountDrops(MainHaltsOf(states, |orig|), MainMoves(states), i, j);
  }
}
