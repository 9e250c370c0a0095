/** The latch that counts operations in flight and collects their failures. */
module Latches {
  import opened Common

  /** How many of these outcomes are failures. */
  function Failures(outcomes: seq<bool>): nat {
    if outcomes == [] then 0
    else Failures(outcomes[..|outcomes| - 1]) + if outcomes[|outcomes| - 1] then 0 else 1
  }

  class Latch {
    var waitingCount: int
    var errorCount: int

    constructor ()
      ensures waitingCount == 0 && errorCount == 0
    {
      waitingCount, errorCount := 0, 0;
    }

    method CountUp()
      modifies this
      ensures waitingCount == old(waitingCount) + 1 && errorCount == old(errorCount)
    {
      waitingCount := waitingCount + 1;
    }

    /** `notified` is whether this call wakes the waiting thread. */
    method CountDown(success: bool) returns (notified: bool)
      modifies this
      ensures waitingCount == old(waitingCount) - 1
      ensures errorCount == old(errorCount) + if success then 0 else 1
      ensures notified == (waitingCount == 0)
    {
      if !success {
        errorCount := errorCount + 1;
      }
      var before := waitingCount;
      waitingCount := before - 1;
      notified := before - 1 == 0;
    }

    /**
     `try_wait_internal`. `arrivals` are the outcomes counted down by other threads while this one waits, one
     or more between any two looks at the counter; `None` where it is still waiting after all of them.
     */
    method TryWaitInternal(arrivals: seq<bool>) returns (errors: Option<int>)
      modifies this
      ensures errors.Some? ==> 0 <= old(waitingCount) <= |arrivals| && waitingCount == errorCount == 0
      ensures errors.Some? ==> errors.value == old(errorCount) + Failures(arrivals[..old(waitingCount)])
      ensures |arrivals| == old(waitingCount) ==> errors.Some?
      ensures errors.None? ==> |arrivals| != old(waitingCount) && waitingCount == old(waitingCount) - |arrivals|
      ensures errors.None? ==> errorCount == old(errorCount) + Failures(arrivals)
    {
      var arrived := 0;
      var current := waitingCount;
      assert arrivals[..0] == [];
      assert arrivals[..|arrivals|] == arrivals;
      while current != 0
        invariant 0 <= arrived <= |arrivals| && current == waitingCount == old(waitingCount) - arrived
        invariant errorCount == old(errorCount) + Failures(arrivals[..arrived])
        decreases |arrivals| - arrived
      {
        if arrived == |arrivals| {
          return None;
        }
        var target :| arrived < target <= |arrivals|;
        while arrived < target
          invariant 0 <= arrived <= target <= |arrivals| && waitingCount == old(waitingCount) - arrived
          invariant errorCount == old(errorCount) + Failures(arrivals[..arrived])
        {
          assert arrivals[..arrived + 1][..arrived] == arrivals[..arrived];
          var notified := CountDown(arrivals[arrived]);
          arrived := arrived + 1;
        }
        current := waitingCount;
      }
      assert arrived == old(waitingCount);
      errors := Some(errorCount);
      errorCount := 0;
    }

    /** `try_wait`: whether no operation failed. */
    method TryWait(arrivals: seq<bool>) returns (clean: Option<bool>)
      modifies this
      ensures clean.Some? ==> 0 <= old(waitingCount) <= |arrivals| && waitingCount == errorCount == 0
      ensures clean.Some? ==> clean.value == (old(errorCount) + Failures(arrivals[..old(waitingCount)]) == 0)
      ensures |arrivals| == old(waitingCount) ==> clean.Some?
    {
      var errors := TryWaitInternal(arrivals);
      clean := match errors case None => None case Some(n) => Some(n == 0);
    }
  }
}

/**
 The latch under any number of worker threads and one waiting thread, each atomic access a step of its
 own. An operation is counted up once and its worker counts it down: error count, decrement, notify.
 */
module LatchSteps {
  import opened Common

  datatype Op =
    | Counted(success: bool)
    | Reported(success: bool)    // its failure, if any, has been added to the error count
    | Notifying(success: bool)   // its decrement reached zero; `notify_one` still to come
    | Finished(success: bool)

  datatype Waiter =
    | Away
    | Loading
    | Checking(current: int)     // `atomic::wait`: blocks only while the count still equals `current`
    | Asleep(current: int)
    | Exchanging

  /** `since` is the number of operations counted before the last wait returned, `result` what it returned. */
  datatype Latch = Latch(count: int, errors: int, ops: seq<Op>, waiter: Waiter, since: nat, result: Option<int>)

  datatype Step =
    | CountUp(success: bool)     // not while the waiter waits
    | WorkerGoesOn(op: nat)
    | Wait
    | WaiterGoesOn
    | SpuriousWake

  const INITIAL := Latch(0, 0, [], Away, 0, None)

  function Apply(l: Latch, s: Step): Latch {
    match s
    case CountUp(success) =>
      if l.waiter.Away? then l.(count := l.count + 1, ops := l.ops + [Counted(success)]) else l
    case WorkerGoesOn(i) => if i < |l.ops| then WorkerStep(l, i) else l
    case Wait => if l.waiter.Away? then l.(waiter := Loading) else l
    case WaiterGoesOn => WaiterStep(l)
    case SpuriousWake => Wake(l)
  }

  function Wake(l: Latch): Latch {
    if l.waiter.Asleep? then l.(waiter := Checking(l.waiter.current)) else l
  }

  function WorkerStep(l: Latch, i: nat): Latch
    requires i < |l.ops|
  {
    match l.ops[i]
    case Counted(success) =>
      l.(errors := l.errors + (if success then 0 else 1), ops := l.ops[i := Reported(success)])
    case Reported(success) =>
      l.(count := l.count - 1, ops := l.ops[i := if l.count - 1 == 0 then Notifying(success) else Finished(success)])
    case Notifying(success) => Wake(l.(ops := l.ops[i := Finished(success)]))
    case Finished(_) => l
  }

  function WaiterStep(l: Latch): Latch {
    match l.waiter
    case Away => l
    case Loading => l.(waiter := if l.count == 0 then Exchanging else Checking(l.count))
    case Checking(current) => l.(waiter := if l.count != current then Loading else Asleep(current))
    case Asleep(_) => l
    case Exchanging => l.(result := Some(l.errors), errors := 0, since := |l.ops|, waiter := Away)
  }

  function Run(l: Latch, steps: seq<Step>): Latch {
    if steps == [] then l else Apply(Run(l, steps[..|steps| - 1]), steps[|steps| - 1])
  }

  // ---------------------------------------------------------------- invariant

  predicate Undone(op: Op) {
    op.Counted? || op.Reported?
  }

  function UndoneIn(ops: seq<Op>): nat {
    if ops == [] then 0 else UndoneIn(ops[..|ops| - 1]) + if Undone(ops[|ops| - 1]) then 1 else 0
  }

  /** Failures already added to the error count. */
  function ReportedIn(ops: seq<Op>): nat {
    if ops == [] then 0
    else ReportedIn(ops[..|ops| - 1]) + if ops[|ops| - 1].Counted? || ops[|ops| - 1].success then 0 else 1
  }

  function FailedIn(ops: seq<Op>): nat {
    if ops == [] then 0 else FailedIn(ops[..|ops| - 1]) + if ops[|ops| - 1].success then 0 else 1
  }

  ghost predicate NotifyPending(l: Latch) {
    exists i :: 0 <= i < |l.ops| && l.ops[i].Notifying?
  }

  ghost predicate Inv(l: Latch) {
    && l.since <= |l.ops|
    && l.count == UndoneIn(l.ops)
    && l.errors == ReportedIn(l.ops[l.since..])
    && (forall i :: 0 <= i < l.since ==> !Undone(l.ops[i]))
    && (l.waiter.Checking? || l.waiter.Asleep? ==> l.waiter.current != 0)
    && (l.waiter.Asleep? && l.count == 0 ==> NotifyPending(l))
    && (l.waiter.Exchanging? ==> l.count == 0)
  }

  lemma {:induction false} UpdateCounts(ops: seq<Op>, i: nat, op: Op)
    requires i < |ops| && op.success == ops[i].success
    ensures UndoneIn(ops[i := op]) - UndoneIn(ops) == (if Undone(op) then 1 else 0) - (if Undone(ops[i]) then 1 else 0)
    ensures ReportedIn(ops[i := op]) - ReportedIn(ops)
         == (if op.Counted? || op.success then 0 else 1) - (if ops[i].Counted? || op.success then 0 else 1)
  {
    var n := |ops| - 1;
    if i < n {
      UpdateCounts(ops[..n], i, op);
      assert ops[i := op][..n] == ops[..n][i := op];
    } else {
      assert ops[i := op][..n] == ops[..n];
    }
  }

  lemma {:induction false} UndoneCounted(ops: seq<Op>, i: nat)
    requires i < |ops| && Undone(ops[i])
    ensures UndoneIn(ops) > 0
  {
    if i < |ops| - 1 { UndoneCounted(ops[..|ops| - 1], i); }
  }

  lemma CountUpKeepsInv(l: Latch, success: bool)
    requires Inv(l)
    ensures Inv(Apply(l, CountUp(success)))
  {
    hide UndoneIn, ReportedIn, NotifyPending, Undone;
    CountedOneMore(l.ops, l.since, success);
  }

  lemma CountedOneMore(ops: seq<Op>, since: nat, success: bool)
    requires since <= |ops|
    ensures var more := ops + [Counted(success)];
      UndoneIn(more) == UndoneIn(ops) + 1 && ReportedIn(more[since..]) == ReportedIn(ops[since..])
  {
    var op := Counted(success);
    AppendCounts(ops, op);
    AppendCounts(ops[since..], op);
    hide UndoneIn, ReportedIn;
    assert (ops + [op])[since..] == ops[since..] + [op];
  }

  lemma AppendCounts(ops: seq<Op>, op: Op)
    ensures UndoneIn(ops + [op]) == UndoneIn(ops) + if Undone(op) then 1 else 0
    ensures ReportedIn(ops + [op]) == ReportedIn(ops) + if op.Counted? || op.success then 0 else 1
  {
    assert (ops + [op])[..|ops + [op]| - 1] == ops;
  }

  lemma WorkerKeepsInv(l: Latch, i: nat)
    requires Inv(l) && i < |l.ops|
    ensures Inv(WorkerStep(l, i))
  {
    var l' := WorkerStep(l, i);
    if !l.ops[i].Finished? {
      UpdateCounts(l.ops, i, l'.ops[i]);
      if Undone(l.ops[i]) { UndoneCounted(l.ops, i); }
      if i >= l.since {
        UpdateCounts(l.ops[l.since..], i - l.since, l'.ops[i]);
        assert l'.ops[l.since..] == l.ops[l.since..][i - l.since := l'.ops[i]];
      } else {
        assert l'.ops[l.since..] == l.ops[l.since..];
      }
      hide UndoneIn, ReportedIn;
      WorkerKeepsAlarm(l, i);
    }
  }

  /** A sleeping waiter keeps its alarm: another notifier, or work left, or it has just been woken. */
  lemma WorkerKeepsAlarm(l: Latch, i: nat)
    requires i < |l.ops| && (l.waiter.Asleep? && l.count == 0 ==> NotifyPending(l))
    ensures var l' := WorkerStep(l, i); l'.waiter.Asleep? && l'.count == 0 ==> NotifyPending(l')
  {
    var l' := WorkerStep(l, i);
    if l'.waiter.Asleep? && l'.count == 0 {
      if l.count == 0 {
        var j :| 0 <= j < |l.ops| && l.ops[j].Notifying?;
        assert l'.ops[j] == l.ops[j];
      } else {
        assert l'.ops[i].Notifying?;
      }
    }
  }

  lemma {:induction false} NoneUndone(ops: seq<Op>)
    ensures UndoneIn(ops) == 0 <==> forall i :: 0 <= i < |ops| ==> !Undone(ops[i])
  {
    if ops != [] {
      NoneUndone(ops[..|ops| - 1]);
      assert forall i :: 0 <= i < |ops| - 1 ==> ops[..|ops| - 1][i] == ops[i];
    }
  }

  lemma WaiterKeepsInv(l: Latch)
    requires Inv(l)
    ensures Inv(WaiterStep(l))
  {
    if l.waiter.Exchanging? {
      NoneUndone(l.ops);
      assert l.ops[|l.ops|..] == [];
      hide UndoneIn;
    }
  }

  lemma StepKeepsInv(l: Latch, s: Step)
    requires Inv(l)
    ensures Inv(Apply(l, s))
  {
    match s
    case CountUp(success) => CountUpKeepsInv(l, success);
    case WorkerGoesOn(i) => if i < |l.ops| { WorkerKeepsInv(l, i); }
    case WaiterGoesOn => WaiterKeepsInv(l);
    case _ => hide UndoneIn, ReportedIn;
  }

  lemma {:induction false} RunKeepsInv(steps: seq<Step>)
    ensures Inv(Run(INITIAL, steps))
  {
    hide Inv, Apply;
    if steps == [] {
      InitialInv();
    } else {
      RunKeepsInv(steps[..|steps| - 1]);
      StepKeepsInv(Run(INITIAL, steps[..|steps| - 1]), steps[|steps| - 1]);
    }
  }

  lemma InitialInv()
    ensures Inv(INITIAL)
  {
  }

  // ---------------------------------------------------------------- theorems

  lemma {:induction false} AllReported(ops: seq<Op>)
    requires forall i :: 0 <= i < |ops| ==> !Undone(ops[i])
    ensures ReportedIn(ops) == FailedIn(ops)
  {
    if ops != [] {
      AllReported(ops[..|ops| - 1]);
    }
  }

  /**
   On every interleaving, the step on which a wait returns finds every counted operation counted down, and
   returns exactly the number of failures among those counted since the previous wait returned.
   */
  lemma WaitReportsFailures(steps: seq<Step>)
    ensures var l := Run(INITIAL, steps);
      l.waiter.Exchanging? ==>
        && (forall i :: 0 <= i < |l.ops| ==> !Undone(l.ops[i]))
        && l.since <= |l.ops|
        && Apply(l, WaiterGoesOn).result == Some(FailedIn(l.ops[l.since..]))
        && Apply(l, WaiterGoesOn).since == |l.ops|
  {
    RunKeepsInv(steps);
    var l := Run(INITIAL, steps);
    hide Run;
    if l.waiter.Exchanging? {
      NoneUndone(l.ops);
      AllReported(l.ops[l.since..]);
    }
  }

  /** The waiter is never left asleep at zero: some worker has yet to notify, and that wakes it for good. */
  lemma NoLostWakeup(steps: seq<Step>) returns (worker: nat)
    ensures var l := Run(INITIAL, steps);
      l.waiter.Asleep? && l.count == 0 ==>
        && worker < |l.ops| && l.ops[worker].Notifying?
        && var woken := Apply(l, WorkerGoesOn(worker));
           Apply(Apply(Apply(woken, WaiterGoesOn), WaiterGoesOn), WaiterGoesOn).waiter.Away?
  {
    RunKeepsInv(steps);
    var l := Run(INITIAL, steps);
    hide Run, UndoneIn, ReportedIn;
    worker := 0;
    if l.waiter.Asleep? && l.count == 0 {
      worker :| 0 <= worker < |l.ops| && l.ops[worker].Notifying?;
      var woken := Apply(l, WorkerGoesOn(worker));
      assert woken.count == 0 && woken.waiter == Checking(l.waiter.current) && l.waiter.current != 0;
    }
  }

  // ---------------------------------------------------------------- counted down once too often

  /** What a callback made twice leaves behind: nobody has anything left to do, and the count is below zero. */
  predicate Overdrawn(l: Latch) {
    l.count < 0 && forall i :: 0 <= i < |l.ops| ==> l.ops[i].Finished?
  }

  predicate Waiting(w: Waiter) {
    w.Loading? || w.Checking? || w.Asleep?
  }

  /** Below zero a wait never returns, whatever is still to come: no step changes the count any more. */
  lemma {:induction false} OverdrawnWaitHangs(l: Latch, steps: seq<Step>)
    requires Overdrawn(l) && Waiting(l.waiter)
    ensures var t := Run(l, steps); Overdrawn(t) && Waiting(t.waiter) && t.count == l.count && t.result == l.result
  {
    if steps != [] {
      OverdrawnWaitHangs(l, steps[..|steps| - 1]);
    }
  }

  // ---------------------------------------------------------------- how long the latch is in use

  /** What the workers still have to do with the latch when a wait returns: to notify, and nothing else. */
  lemma WaitLeavesNotifiers(steps: seq<Step>, i: nat)
    ensures var l := Run(INITIAL, steps);
      l.waiter.Exchanging? && i < |l.ops| ==> l.ops[i].Finished? || l.ops[i].Notifying?
  {
    RunKeepsInv(steps);
    hide Run, UndoneIn, ReportedIn;
    NoneUndone(Run(INITIAL, steps).ops);
  }

  /**
   From any state with the count at zero a wait goes through without the notification still to come, so that
   the last worker may touch the latch after the wait has returned.
   */
  lemma WaitOutrunsNotifier(l: Latch)
    requires l.count == 0 && l.waiter.Away? && NotifyPending(l)
    ensures var t := Run(l, [Wait, WaiterGoesOn, WaiterGoesOn]);
      t.waiter.Away? && t.result == Some(l.errors) && NotifyPending(t)
  {
    var none: seq<Step> := [];
    assert Run(l, none) == l;
    assert [Wait, WaiterGoesOn][..1] == [Wait] && [Wait][..0] == none;
    assert [Wait, WaiterGoesOn, WaiterGoesOn][..2] == [Wait, WaiterGoesOn];
    assert Run(l, [Wait]) == Apply(l, Wait);
    assert Run(l, [Wait, WaiterGoesOn]) == Apply(Apply(l, Wait), WaiterGoesOn);
  }

  /** Such a state comes with every operation that brings the count to zero while nobody waits yet. */
  lemma LastWorkerNotifies(l: Latch, i: nat)
    requires l.count == 1 && i < |l.ops| && l.ops[i].Reported?
    ensures var t := Apply(l, WorkerGoesOn(i)); t.count == 0 && t.waiter == l.waiter && NotifyPending(t)
  {
    assert Apply(l, WorkerGoesOn(i)).ops[i].Notifying?;
  }

  /** A wait that begins with the count at zero is over in two steps, with the errors counted so far. */
  lemma WaitAtZero(l: Latch)
    requires l.waiter.Loading? && l.count == 0
    ensures var t := Apply(Apply(l, WaiterGoesOn), WaiterGoesOn); t.waiter.Away? && t.result == Some(l.errors)
  {
  }
}
