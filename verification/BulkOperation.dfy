/**
 Bulk reads through a latch: `DataOperator::read_async` counts up once per unit and starts the unit's
 checked read, whose callback counts down.
 */
module BulkOperations {
  import opened Common
  import opened Wire
  import opened StorageUnits
  import opened Completions
  import opened Latches
  import LatchSteps
  import Handlers

  // ---------------------------------------------------------------- starting

  predicate AllBelow(ids: seq<nat>, n: nat) {
    forall i :: 0 <= i < |ids| ==> ids[i] < n
  }

  datatype Started = Started(units: seq<StorageUnit>, count: nat)

  /** The units after a bulk read, and how many reads were accepted before one was refused. */
  function StartAll(us: seq<StorageUnit>, ids: seq<nat>, timeout: int, first: nat): (r: Started)
    requires AllBelow(ids, |us|)
    ensures |r.units| == |us| && r.count <= |ids|
  {
    if ids == [] then Started(us, 0)
    else
      var before, id := ids[..|ids| - 1], ids[|ids| - 1];
      var r := StartAll(us, before, timeout, first);
      if r.count < |before| then r
      else match ReadAsync(r.units[id], timeout, first + |before|)
        case None => r
        case Some(u) => Started(r.units[id := u], r.count + 1)
  }

  /**
   The loop of `iterate` with the body of `read_async`. A busy unit throws after its `count_up`, so a refused
   bulk read leaves the latch one higher than the callbacks that will ever come.
   */
  method ReadAsyncAll(handler: Handlers.Handler, latch: Latch, ids: seq<nat>, timeout: int, first: nat)
    returns (ok: bool)
    requires AllBelow(ids, handler.storage.Length)
    modifies handler.storage, latch
    ensures var r := StartAll(old(handler.storage[..]), ids, timeout, first);
      && handler.storage[..] == r.units
      && ok == (r.count == |ids|)
      && latch.waitingCount == old(latch.waitingCount) + r.count + (if ok then 0 else 1)
      && latch.errorCount == old(latch.errorCount)
  {
    ghost var before := handler.storage[..];
    for i := 0 to |ids|
      invariant handler.storage[..] == StartAll(before, ids[..i], timeout, first).units
      invariant StartAll(before, ids[..i], timeout, first).count == i
      invariant latch.waitingCount == old(latch.waitingCount) + i && latch.errorCount == old(latch.errorCount)
    {
      latch.CountUp();
      StartOneMore(before, ids, i, timeout, first);
      var accepted := handler.ReadAsync(ids[i], timeout, first + i);
      if !accepted {
        StartStops(before, ids, i + 1, timeout, first);
        return false;
      }
    }
    assert ids[..|ids|] == ids;
    return true;
  }

  lemma StartOneMore(us: seq<StorageUnit>, ids: seq<nat>, i: nat, timeout: int, first: nat)
    requires AllBelow(ids, |us|)
    requires i < |ids| && StartAll(us, ids[..i], timeout, first).count == i
    ensures var r := StartAll(us, ids[..i], timeout, first);
      StartAll(us, ids[..i + 1], timeout, first)
        == match ReadAsync(r.units[ids[i]], timeout, first + i)
           case None => r
           case Some(u) => Started(r.units[ids[i] := u], i + 1)
  {
    assert ids[..i + 1][..i] == ids[..i];
  }

  lemma {:induction false} StartStops(us: seq<StorageUnit>, ids: seq<nat>, i: nat, timeout: int, first: nat)
    requires AllBelow(ids, |us|)
    requires i <= |ids| && StartAll(us, ids[..i], timeout, first).count < i
    ensures StartAll(us, ids, timeout, first) == StartAll(us, ids[..i], timeout, first)
    decreases |ids|
  {
    if i == |ids| {
      assert ids[..i] == ids;
    } else {
      assert ids[..|ids| - 1][..i] == ids[..i];
      StartStops(us, ids[..|ids| - 1], i, timeout, first);
    }
  }

  ghost predicate AllIdle(us: seq<StorageUnit>, ids: seq<nat>) {
    forall id :: id in ids ==> id < |us| && Idle(us[id])
  }

  ghost predicate NoDuplicates(ids: seq<nat>) {
    forall i, j :: 0 <= i < j < |ids| ==> ids[i] != ids[j]
  }

  /** A bulk read is accepted as a whole exactly when its units are distinct and all idle. */
  lemma {:induction false} StartsExactlyWhenIdle(us: seq<StorageUnit>, ids: seq<nat>, timeout: int, first: nat)
    requires AllBelow(ids, |us|)
    ensures StartAll(us, ids, timeout, first).count == |ids| <==> AllIdle(us, ids) && NoDuplicates(ids)
    ensures StartAll(us, ids, timeout, first).count == |ids| ==>
      forall id: nat :: id < |us| ==>
        StartAll(us, ids, timeout, first).units[id].operation ==
          if id in ids then Operation(READ, WAITING) else us[id].operation
  {
    if ids != [] {
      var before, id := ids[..|ids| - 1], ids[|ids| - 1];
      StartsExactlyWhenIdle(us, before, timeout, first);
      assert ids == before + [id];
      SplitLast(us, before, id);
      hide AllIdle, NoDuplicates;
    }
  }

  lemma SplitLast(us: seq<StorageUnit>, before: seq<nat>, id: nat)
    ensures AllIdle(us, before + [id]) <==> AllIdle(us, before) && id < |us| && Idle(us[id])
    ensures NoDuplicates(before + [id]) <==> NoDuplicates(before) && id !in before
  {
    var ids := before + [id];
    if NoDuplicates(ids) {
      forall i, j | 0 <= i < j < |before|
        ensures before[i] != before[j]
      {
        assert ids[i] != ids[j];
      }
      forall i | 0 <= i < |before|
        ensures before[i] != id
      {
        assert ids[i] != ids[|before|];
      }
    }
    assert id in ids && forall x :: x in before ==> x in ids;
  }

  // ---------------------------------------------------------------- the calls as a run

  function ReadCalls(ids: seq<nat>, timeout: int): seq<Event> {
    seq(|ids|, i requires 0 <= i < |ids| => CallRead(ids[i], timeout))
  }

  /** The method above, on a system whose next operation number is `first`, is the run of its calls. */
  lemma {:induction false} StartIsRun(s: System, ids: seq<nat>, timeout: int)
    requires AllBelow(ids, |s.units|) && StartAll(s.units, ids, timeout, s.accepted).count == |ids|
    ensures Run(s, ReadCalls(ids, timeout))
         == s.(units := StartAll(s.units, ids, timeout, s.accepted).units, accepted := s.accepted + |ids|)
  {
    if ids != [] {
      var before, id := ids[..|ids| - 1], ids[|ids| - 1];
      StartIsRun(s, before, timeout);
      assert ReadCalls(ids, timeout) == ReadCalls(before, timeout) + [CallRead(id, timeout)];
      hide Step, Run, ReadCalls, ReadAsync;
      RunMore(s, ReadCalls(before, timeout), CallRead(id, timeout));
      CallReadStep(Run(s, ReadCalls(before, timeout)), id, timeout);
    }
  }

  lemma CallReadStep(s: System, id: nat, timeout: int)
    requires id < |s.units|
    ensures var r := ReadAsync(s.units[id], timeout, s.accepted);
      r.Some? ==> Step(s, CallRead(id, timeout)) == s.(units := s.units[id := r.value], accepted := s.accepted + 1)
  {
  }

  // ---------------------------------------------------------------- counting down

  datatype Counts = Counts(waiting: int, errors: int)

  predicate Ours(c: Completion, first: nat, n: nat) {
    first <= c.operation < first + n
  }

  /** The latch of `n` operations numbered from `first`, once every callback in the log has counted down. */
  function CountsAfter(log: seq<Completion>, first: nat, n: nat): Counts {
    if log == [] then Counts(n, 0)
    else
      var before, c := CountsAfter(log[..|log| - 1], first, n), log[|log| - 1];
      if Ours(c, first, n) then Counts(before.waiting - 1, before.errors + if c.success then 0 else 1) else before
  }

  /** How many of the operations numbered `first` to `first + n` have been told exactly `verdicts`. */
  function Told(log: seq<Completion>, first: nat, n: nat, verdicts: seq<bool>): (t: nat)
    ensures t <= n
  {
    if n == 0 then 0
    else Told(log, first, n - 1, verdicts) + if Verdicts(log, first + n - 1) == verdicts then 1 else 0
  }

  /** Callbacks to the latch, added up operation by operation. */
  function Calls(log: seq<Completion>, first: nat, n: nat): nat {
    if n == 0 then 0 else Calls(log, first, n - 1) + |Verdicts(log, first + n - 1)|
  }

  function ErrorCalls(log: seq<Completion>, first: nat, n: nat): nat {
    if n == 0 then 0 else ErrorCalls(log, first, n - 1) + Failures(Verdicts(log, first + n - 1))
  }

  lemma FailuresMore(verdicts: seq<bool>, v: bool)
    ensures Failures(verdicts + [v]) == Failures(verdicts) + if v then 0 else 1
  {
    assert (verdicts + [v])[..|verdicts + [v]| - 1] == verdicts;
  }

  lemma {:induction false} CallsMore(log: seq<Completion>, c: Completion, first: nat, n: nat)
    ensures Calls(log + [c], first, n) == Calls(log, first, n) + if Ours(c, first, n) then 1 else 0
    ensures ErrorCalls(log + [c], first, n)
         == ErrorCalls(log, first, n) + if Ours(c, first, n) && !c.success then 1 else 0
  {
    if n > 0 {
      CallsMore(log, c, first, n - 1);
      VerdictsAppend(log, [c], first + n - 1);
      VerdictsOne(c, first + n - 1);
      FailuresMore(Verdicts(log, first + n - 1), c.success);
      assert Verdicts(log, first + n - 1) + [] == Verdicts(log, first + n - 1);
    }
  }

  lemma {:induction false} CountsAreCalls(log: seq<Completion>, first: nat, n: nat)
    ensures CountsAfter(log, first, n) == Counts(n - Calls(log, first, n), ErrorCalls(log, first, n))
  {
    if log == [] {
      NoCalls(first, n);
    } else {
      var before, c := log[..|log| - 1], log[|log| - 1];
      CountsAreCalls(before, first, n);
      CallsMore(before, c, first, n);
      assert log == before + [c];
    }
  }

  lemma {:induction false} NoCalls(first: nat, n: nat)
    ensures Calls([], first, n) == 0 && ErrorCalls([], first, n) == 0
  {
    if n > 0 { NoCalls(first, n - 1); }
  }

  /** Each operation called not at all, once, or twice, and the calls that reported failure. */
  lemma {:induction false} LawfulCounts(log: seq<Completion>, first: nat, n: nat)
    requires forall k :: first <= k < first + n ==> Lawful(Verdicts(log, k))
    ensures Calls(log, first, n) == n - Told(log, first, n, []) + Told(log, first, n, [true, false])
    ensures ErrorCalls(log, first, n) == Told(log, first, n, [false]) + Told(log, first, n, [true, false])
    ensures Told(log, first, n, []) + Told(log, first, n, [true]) + Told(log, first, n, [false])
          + Told(log, first, n, [true, false]) == n
  {
    if n > 0 {
      LawfulCounts(log, first, n - 1);
      FailuresOfLawful(Verdicts(log, first + n - 1));
      hide Failures, Verdicts;
    }
  }

  lemma FailuresOfLawful(verdicts: seq<bool>)
    requires Lawful(verdicts)
    ensures Failures(verdicts) == if verdicts == [false] || verdicts == [true, false] then 1 else 0
    ensures |verdicts| == if verdicts == [] then 0 else if verdicts == [true, false] then 2 else 1
  {
    FailuresMore([], true);
    FailuresMore([], false);
    FailuresMore([true], false);
    assert [] + [true] == [true] && [] + [false] == [false] && [true] + [false] == [true, false];
  }

  ghost predicate Each(log: seq<Completion>, first: nat, n: nat, verdicts: seq<bool>) {
    forall k :: first <= k < first + n ==> Verdicts(log, k) == verdicts
  }

  ghost predicate NoneOf(log: seq<Completion>, first: nat, n: nat, verdicts: seq<bool>) {
    forall k :: first <= k < first + n ==> Verdicts(log, k) != verdicts
  }

  lemma SplitLastOperation(log: seq<Completion>, first: nat, n: nat, verdicts: seq<bool>)
    requires n > 0
    ensures Each(log, first, n, verdicts)
       <==> Each(log, first, n - 1, verdicts) && Verdicts(log, first + n - 1) == verdicts
    ensures NoneOf(log, first, n, verdicts)
       <==> NoneOf(log, first, n - 1, verdicts) && Verdicts(log, first + n - 1) != verdicts
  {
    hide Verdicts;
    var last := first + n - 1;
    assert Each(log, first, n, verdicts) ==> Verdicts(log, last) == verdicts;
    assert NoneOf(log, first, n, verdicts) ==> Verdicts(log, last) != verdicts;
  }

  lemma {:induction false} ToldAll(log: seq<Completion>, first: nat, n: nat, verdicts: seq<bool>)
    ensures Told(log, first, n, verdicts) == n <==> Each(log, first, n, verdicts)
    ensures Told(log, first, n, verdicts) == 0 <==> NoneOf(log, first, n, verdicts)
  {
    hide Verdicts, Each, NoneOf;
    if n > 0 {
      ToldAll(log, first, n - 1, verdicts);
      SplitLastOperation(log, first, n, verdicts);
    } else {
      NoOperations(log, first, verdicts);
    }
  }

  lemma NoOperations(log: seq<Completion>, first: nat, verdicts: seq<bool>)
    ensures Each(log, first, 0, verdicts) && NoneOf(log, first, 0, verdicts)
  {
  }

  /** No operation of the bulk succeeds on a tick that has also reached the time in its union. */
  ghost predicate NoneDoubled(s: System, es: seq<Event>, first: nat, n: nat) {
    forall k, i :: first <= k < first + n ==> !EndsBy(s, es, k, i, [true, false])
  }

  /** How many of the operations are still under way. */
  ghost function PendingIn(t: System, first: nat, n: nat): nat {
    if n == 0 then 0 else PendingIn(t, first, n - 1) + if Pending(t, first + n - 1) then 1 else 0
  }

  lemma {:induction false} PendingTold(t: System, first: nat, n: nat)
    requires forall k :: first <= k < first + n ==> (Verdicts(t.log, k) == [] <==> Pending(t, k))
    ensures PendingIn(t, first, n) == Told(t.log, first, n, [])
  {
    hide Verdicts, Pending;
    if n > 0 { PendingTold(t, first, n - 1); }
  }

  lemma OperationLaw(s: System, es: seq<Event>, k: nat)
    requires Initial(s) && k < Run(s, es).accepted
    ensures Lawful(Verdicts(Run(s, es).log, k))
    ensures Verdicts(Run(s, es).log, k) == [] <==> Pending(Run(s, es), k)
    ensures Verdicts(Run(s, es).log, k) == [true, false] <==> exists i :: EndsBy(s, es, k, i, [true, false])
  {
    CompletionLog(s, es, k);
    hide Run, Verdicts, Pending, EndsBy, Initial;
  }

  lemma NoneDoubledTold(s: System, es: seq<Event>, first: nat, n: nat)
    requires Initial(s) && Run(s, es).accepted >= first + n
    ensures NoneDoubled(s, es, first, n) <==> Told(Run(s, es).log, first, n, [true, false]) == 0
  {
    forall k: nat | first <= k < first + n
      ensures Verdicts(Run(s, es).log, k) == [true, false] <==> exists i :: EndsBy(s, es, k, i, [true, false])
    {
      OperationLaw(s, es, k);
    }
    hide Run, Verdicts, Told, EndsBy, Initial;
    ToldAll(Run(s, es).log, first, n, [true, false]);
  }

  /**
   The latch of any checked operations of any run, reads or writes, in terms of where the operations stand. It
   counts one too few and one failure too many for each operation told both verdicts, so it is the number
   still pending exactly when there is none. It says success throughout exactly when that is what every
   operation was told.
   */
  lemma BulkCounts(s: System, es: seq<Event>, first: nat, n: nat)
    requires Initial(s) && Run(s, es).accepted >= first + n
    ensures var t := Run(s, es);
      var latch, doubled := CountsAfter(t.log, first, n), Told(t.log, first, n, [true, false]);
      && latch.waiting == PendingIn(t, first, n) - doubled
      && latch.errors == Told(t.log, first, n, [false]) + doubled
      && (latch.waiting == PendingIn(t, first, n) <==> NoneDoubled(s, es, first, n))
      && (latch.waiting == 0 && latch.errors == 0 <==> Each(t.log, first, n, [true]))
  {
    var t := Run(s, es);
    forall k: nat | first <= k < first + n
      ensures Lawful(Verdicts(t.log, k)) && (Verdicts(t.log, k) == [] <==> Pending(t, k))
    {
      OperationLaw(s, es, k);
    }
    NoneDoubledTold(s, es, first, n);
    hide Run, Verdicts, Pending, PendingIn, NoneDoubled, Initial, Told, Calls, ErrorCalls, CountsAfter, Each, Lawful;
    CountsAreCalls(t.log, first, n);
    LawfulCounts(t.log, first, n);
    PendingTold(t, first, n);
    ToldAll(t.log, first, n, [true]);
  }

  // ---------------------------------------------------------------- a bulk among ticks and replies

  predicate UserCall(e: Event) {
    !e.TickUnit? && !e.Deliver?
  }

  /** The user's calls among the events. */
  function CallsIn(es: seq<Event>): seq<Event> {
    if es == [] then []
    else CallsIn(es[..|es| - 1]) + if UserCall(es[|es| - 1]) then [es[|es| - 1]] else []
  }

  lemma IdleStaysIdle(s: System, e: Event, id: nat)
    requires id < |s.units| && Idle(s.units[id]) && !(UserCall(e) && e.id == id)
    ensures Idle(Step(s, e).units[id])
  {
    if e.Deliver? {
      HandleReplyKeepsHolders(s.units, s.index, e.reply);
      hide HandleReply;
    }
  }

  /** With ticks and replies anywhere between the calls, all are accepted, numbered in a row. */
  lemma {:induction false} AcceptedInARow(s: System, es: seq<Event>, ids: seq<nat>, timeout: int)
    requires AllIdle(s.units, ids) && NoDuplicates(ids) && CallsIn(es) == ReadCalls(ids, timeout)
    ensures Run(s, es).accepted == s.accepted + |ids|
    ensures forall id: nat :: id < |s.units| && Idle(s.units[id]) && id !in ids ==> Idle(Run(s, es).units[id])
    decreases |es|
  {
    hide Step, AllIdle, NoDuplicates;
    if es != [] {
      var before, e := es[..|es| - 1], es[|es| - 1];
      if UserCall(e) {
        var m := |ids| - 1;
        assert CallsIn(es)[..m] == CallsIn(before) && CallsIn(es)[m] == e;
        assert ReadCalls(ids, timeout)[..m] == ReadCalls(ids[..m], timeout) && e == CallRead(ids[m], timeout);
        assert ids == ids[..m] + [ids[m]];
        SplitLast(s.units, ids[..m], ids[m]);
        AcceptedInARow(s, before, ids[..m], timeout);
      } else {
        assert CallsIn(es) == CallsIn(before);
        AcceptedInARow(s, before, ids, timeout);
      }
      RowStep(s, Run(s, before), e, ids);
    } else {
      assert |ReadCalls(ids, timeout)| == 0;
    }
  }

  lemma RowStep(s: System, p: System, e: Event, ids: seq<nat>)
    requires |s.units| == |p.units|
    requires forall id: nat :: id < |s.units| && Idle(s.units[id]) && id !in ids ==> Idle(p.units[id])
    requires UserCall(e) ==> e.id in ids
    ensures forall id: nat :: id < |s.units| && Idle(s.units[id]) && id !in ids ==> Idle(Step(p, e).units[id])
    ensures Step(p, e).accepted == p.accepted + if Accepts(p, e) then 1 else 0
  {
    AcceptedGrows(p, e);
    hide Step, Accepts;
    forall id: nat | id < |s.units| && Idle(s.units[id]) && id !in ids
      ensures Idle(Step(p, e).units[id])
    {
      IdleStaysIdle(p, e, id);
    }
  }

  /**
   `read<Data>` over any distinct idle units, with ticks and replies before, between and after its calls: all
   its reads are accepted, and `BulkCounts` holds of its latch whenever one looks.
   */
  lemma BulkWait(s: System, earlier: seq<Event>, during: seq<Event>, ids: seq<nat>, timeout: int, later: seq<Event>)
    requires Initial(s)
    requires AllIdle(Run(s, earlier).units, ids) && NoDuplicates(ids)
    requires CallsIn(during) == ReadCalls(ids, timeout)
    ensures var es, first, n := earlier + during + later, Run(s, earlier).accepted, |ids|;
      var t := Run(s, es);
      var latch, doubled := CountsAfter(t.log, first, n), Told(t.log, first, n, [true, false]);
      && Run(s, earlier + during).accepted == first + n <= t.accepted
      && latch.waiting == PendingIn(t, first, n) - doubled
      && latch.errors == Told(t.log, first, n, [false]) + doubled
      && (latch.waiting == PendingIn(t, first, n) <==> NoneDoubled(s, es, first, n))
      && (latch.waiting == 0 && latch.errors == 0 <==> Each(t.log, first, n, [true]))
  {
    var es, first, n := earlier + during + later, Run(s, earlier).accepted, |ids|;
    AcceptedInARow(Run(s, earlier), during, ids, timeout);
    hide Run, CountsAfter, Told, PendingIn, NoneDoubled, Each, CallsIn, ReadCalls, Initial;
    RunAppend(s, earlier, during);
    RunAppend(s, earlier + during, later);
    BulkCounts(s, es, first, n);
  }

  // ---------------------------------------------------------------- waiting

  /**
   When every operation has ended, a wait on the latch comes to its end exactly when none was told both
   verdicts, and then returns how many were told failure. Otherwise the count is below zero, and the wait
   goes on whatever happens.
   */
  lemma WaitEndsUnlessDoubled(s: System, es: seq<Event>, first: nat, n: nat,
    l: LatchSteps.Latch, steps: seq<LatchSteps.Step>)
    requires Initial(s) && Run(s, es).accepted >= first + n && PendingIn(Run(s, es), first, n) == 0
    requires l.count == CountsAfter(Run(s, es).log, first, n).waiting
    requires l.errors == CountsAfter(Run(s, es).log, first, n).errors
    requires l.waiter.Loading? && forall i :: 0 <= i < |l.ops| ==> l.ops[i].Finished?
    ensures NoneDoubled(s, es, first, n) ==>
      var t := LatchSteps.Apply(LatchSteps.Apply(l, LatchSteps.WaiterGoesOn), LatchSteps.WaiterGoesOn);
      && t.waiter.Away? && t.result == Some(Told(Run(s, es).log, first, n, [false]))
      && (t.result == Some(0) <==> Each(Run(s, es).log, first, n, [true]))
    ensures !NoneDoubled(s, es, first, n) ==> LatchSteps.Waiting(LatchSteps.Run(l, steps).waiter)
  {
    hide Run, CountsAfter, Told, PendingIn, NoneDoubled, Each, Initial;
    hide LatchSteps.Apply, LatchSteps.Run, LatchSteps.Waiting;
    BulkCounts(s, es, first, n);
    if NoneDoubled(s, es, first, n) {
      LatchSteps.WaitAtZero(l);
    } else {
      LatchSteps.OverdrawnWaitHangs(l, steps);
    }
  }

  function TwoUnits(a: Key, b: Key): System {
    System([Blank(a), Blank(b)], map[a := 0, b := 1], 0, [])
  }

  function Blank(key: Key): StorageUnit {
    StorageUnit(StorageInfo(key, Size1, {}), IDLE, 0, 0, 0, None)
  }

  /**
   With a double verdict the latch reaches zero while the other read of the bulk is still pending, and has
   counted a failure for a read that succeeded.
   */
  lemma DoubleVerdictEndsWaitEarly(a: Key, b: Key)
    requires a != b
    ensures var s := TwoUnits(a, b);
      var es := [CallRead(0, 10), CallRead(1, 1000)]
        + [TickUnit(0, 100), TickUnit(1, 100), Deliver(ReadSuccess(a, Size1, 7)), TickUnit(0, 110)];
      Initial(s) && CountsAfter(Run(s, es).log, 0, 2) == Counts(0, 1) && Pending(Run(s, es), 1)
  {
    TwoInitial(a, b);
    hide Run, Step, Initial, TwoUnits, CountsAfter;
    var s := TwoUnits(a, b);
    var calls := [CallRead(0, 10), CallRead(1, 1000)];
    var ticks := [TickUnit(0, 100), TickUnit(1, 100), Deliver(ReadSuccess(a, Size1, 7)), TickUnit(0, 110)];
    RunAppend(s, calls, ticks);
    RunTwo(s, CallRead(0, 10), CallRead(1, 1000));
    var c := Run(s, calls);
    RunFour(c, TickUnit(0, 100), TickUnit(1, 100), Deliver(ReadSuccess(a, Size1, 7)), TickUnit(0, 110));
    var t := Run(c, ticks);
    TwoReads(a, b);
    assert t.log == [Completion(0, true)] + [Completion(0, false)];
    CountsOfTwo(Completion(0, true), Completion(0, false));
    assert Holds(t.units[1], 1);
  }

  lemma TwoInitial(a: Key, b: Key)
    ensures Initial(TwoUnits(a, b))
  {
  }

  lemma RunTwo(s: System, a: Event, b: Event)
    ensures Run(s, [a, b]) == Step(Step(s, a), b)
  {
    hide Step;
    assert Run(s, []) == s && [] + [a] == [a];
    RunMore(s, [], a);
    RunMore(s, [a], b);
    assert [a] + [b] == [a, b];
  }

  lemma TwoReads(a: Key, b: Key)
    requires a != b
    ensures var c := Step(Step(TwoUnits(a, b), CallRead(0, 10)), CallRead(1, 1000));
      var t := Step(Step(Step(Step(c, TickUnit(0, 100)), TickUnit(1, 100)), Deliver(ReadSuccess(a, Size1, 7))),
                    TickUnit(0, 110));
      t.log == [Completion(0, true), Completion(0, false)] && |t.units| == 2 && Holds(t.units[1], 1)
  {
    var c := Step(Step(TwoUnits(a, b), CallRead(0, 10)), CallRead(1, 1000));
    var armed := Step(Step(c, TickUnit(0, 100)), TickUnit(1, 100));
    assert armed.units[0].operation == Operation(READ, READING) && armed.units[0].timer == 110 && armed.log == [];
    assert Holds(armed.units[1], 1) && armed.index == map[a := 0, b := 1];
    var replied := Step(armed, Deliver(ReadSuccess(a, Size1, 7)));
    assert replied.units[0].operation == Operation(READ, SUCCESS) && replied.units[0].callback == Some(0);
    assert replied.units[1] == armed.units[1] && replied.log == [];
    BothCallbacks(replied.units[0], 110, 0);
  }

  lemma CountsOfTwo(c: Completion, d: Completion)
    requires c == Completion(0, true) && d == Completion(0, false)
    ensures CountsAfter([c] + [d], 0, 2) == Counts(0, 1)
    ensures CountsAfter([c] + [d], 0, 1) == Counts(-1, 1)
  {
    var none: seq<Completion> := [];
    assert CountsAfter(none, 0, 2) == Counts(2, 0) && CountsAfter(none, 0, 1) == Counts(1, 0);
    assert [c][..0] == none && CountsAfter([c], 0, 2) == Counts(1, 0) && CountsAfter([c], 0, 1) == Counts(0, 0);
    assert ([c] + [d])[..1] == [c];
  }

  /** The run of `Completions.BothVerdicts` takes the latch of a single `read` to minus one: its wait never returns. */
  lemma DoubledReadHangs(steps: seq<LatchSteps.Step>)
    ensures var key := Key(0x5090, 0);
      var s := OneUnit(Blank(key));
      var es := [CallRead(0, 10), TickUnit(0, 100), Deliver(ReadSuccess(key, Size1, 7)), TickUnit(0, 110)];
      var waiting := CountsAfter(Run(s, es).log, 0, 1).waiting;
      var l := LatchSteps.Latch(waiting, 1, [LatchSteps.Finished(true)], LatchSteps.Loading, 0, None);
      waiting == -1 && LatchSteps.Waiting(LatchSteps.Run(l, steps).waiter)
  {
    BothVerdicts();
    CountsOfTwo(Completion(0, true), Completion(0, false));
    assert [Completion(0, true)] + [Completion(0, false)] == [Completion(0, true), Completion(0, false)];
    hide Run, CountsAfter;
    LatchSteps.OverdrawnWaitHangs(
      LatchSteps.Latch(-1, 1, [LatchSteps.Finished(true)], LatchSteps.Loading, 0, None), steps);
  }
}
