/**
 Runs of the transaction engine in coarse steps: a user call, one unit's turn in a tick, or one reply.
 A run is any list of such events, so the three threads interleave freely.
 */
module Completions {
  import opened Common
  import opened Wire
  import opened StorageUnits

  /** `accepted` numbers the checked operations accepted so far; each is known by its number. */
  datatype System = System(units: seq<StorageUnit>, index: map<Key, nat>, accepted: nat, log: seq<Completion>)

  datatype Event =
    | CallRead(id: nat, timeout: int)
    | CallReadUnchecked(id: nat, timeout: int)
    | CallWrite(id: nat, data: nat, timeout: int)
    | CallWriteUnchecked(id: nat, data: nat, timeout: int)
    | TickUnit(id: nat, now: int)
    | Deliver(reply: Reply)

  function UnitAfter(s: System, e: Event): StorageUnit
    requires !e.Deliver? && e.id < |s.units|
  {
    var u := s.units[e.id];
    match e
    case CallRead(_, timeout) => ReadAsync(u, timeout, s.accepted).GetOr(u)
    case CallReadUnchecked(_, timeout) => ReadAsyncUnchecked(u, timeout)
    case CallWrite(_, data, timeout) => WriteAsync(u, data, timeout, s.accepted).GetOr(u)
    case CallWriteUnchecked(_, data, timeout) => WriteAsyncUnchecked(u, data, timeout)
    case TickUnit(_, now) => Tick(u, now).unit
  }

  /** Whether this event makes the source accept a checked operation. */
  predicate Accepts(s: System, e: Event) {
    (e.CallRead? || e.CallWrite?) && e.id < |s.units| && Idle(s.units[e.id])
  }

  /** An event naming no unit changes nothing. */
  function Step(s: System, e: Event): (s': System)
    ensures |s'.units| == |s.units| && s'.index == s.index
  {
    if e.Deliver? then s.(units := HandleReply(s.units, s.index, e.reply).units)
    else if e.id >= |s.units| then s
    else
      System(s.units[e.id := UnitAfter(s, e)],
             s.index,
             if Accepts(s, e) then s.accepted + 1 else s.accepted,
             if e.TickUnit? then s.log + Callbacks(s.units[e.id], e.now) else s.log)
  }

  function Run(s: System, es: seq<Event>): (s': System)
    ensures |s'.units| == |s.units| && s'.index == s.index
  {
    if es == [] then s else Step(Run(s, es[..|es| - 1]), es[|es| - 1])
  }

  predicate Initial(s: System) {
    s.accepted == 0 && s.log == [] && forall u :: u in s.units ==> Idle(u) && u.callback.None?
  }

  // ---------------------------------------------------------------- operations in the log

  /** What operation `k` was told, in order. */
  function Verdicts(log: seq<Completion>, k: nat): seq<bool> {
    if log == [] then []
    else Verdicts(log[..|log| - 1], k) + (if log[|log| - 1].operation == k then [log[|log| - 1].success] else [])
  }

  /** The verdict lists an operation of a run can have been told. */
  predicate Lawful(verdicts: seq<bool>) {
    verdicts in {[], [true], [false], [true, false]}
  }

  predicate Holds(u: StorageUnit, k: nat) {
    !Idle(u) && u.callback == Some(k)
  }

  ghost predicate Pending(s: System, k: nat) {
    exists i :: 0 <= i < |s.units| && Holds(s.units[i], k)
  }

  /** The i-th event is the tick that ends operation `k` with these verdicts. */
  ghost predicate EndsBy(s: System, es: seq<Event>, k: nat, i: nat, verdicts: seq<bool>) {
    && i < |es| && es[i].TickUnit?
    && EndedByTick(Run(s, es[..i]), es[i].id, es[i].now, k, verdicts)
  }

  ghost predicate EndedByTick(s: System, id: nat, now: int, k: nat, verdicts: seq<bool>) {
    && id < |s.units| && Holds(s.units[id], k)
    && var u := s.units[id];
       if Succeeds(u) then
         verdicts == if now < u.timer then [true] else [true, false]
       else
         u.operation.state != WAITING && u.timer <= now && verdicts == [false]
  }

  ghost predicate Known(us: seq<StorageUnit>, accepted: nat) {
    forall i :: 0 <= i < |us| && us[i].callback.Some? ==> us[i].callback.value < accepted
  }

  ghost predicate Distinct(us: seq<StorageUnit>) {
    forall i, j, k :: 0 <= i < j < |us| && Holds(us[i], k) ==> !Holds(us[j], k)
  }

  ghost predicate Inv(s: System) {
    Known(s.units, s.accepted) && Distinct(s.units)
  }

  lemma {:induction false} VerdictsAppend(log: seq<Completion>, more: seq<Completion>, k: nat)
    ensures Verdicts(log + more, k) == Verdicts(log, k) + Verdicts(more, k)
  {
    if more == [] {
      assert log + more == log;
    } else {
      VerdictsAppend(log, more[..|more| - 1], k);
      assert (log + more)[..|log + more| - 1] == log + more[..|more| - 1];
    }
  }

  lemma VerdictsOne(c: Completion, k: nat)
    ensures Verdicts([c], k) == if c.operation == k then [c.success] else []
  {
    assert [c][..0] == [];
  }

  lemma CallbackVerdicts(u: StorageUnit, now: int, k: nat)
    ensures Verdicts(Callbacks(u, now), k) == if u.callback == Some(k) then Tick(u, now).verdicts else []
  {
    var log, v := Callbacks(u, now), Tick(u, now).verdicts;
    TickVerdicts(u, now);
    hide Tick, Verdicts;
    if u.callback.None? || v == [] {
      assert log == [];
      VerdictsNone(k);
    } else {
      var first := Completion(u.callback.value, v[0]);
      VerdictsOne(first, k);
      if |v| == 1 {
        assert log == [first];
      } else {
        var second := Completion(u.callback.value, v[1]);
        assert log == [first] + [second];
        VerdictsOne(second, k);
        VerdictsAppend([first], [second], k);
        assert v == [v[0]] + [v[1]];
      }
    }
  }

  lemma VerdictsNone(k: nat)
    ensures Verdicts([], k) == []
  {
  }

  lemma TickVerdicts(u: StorageUnit, now: int)
    ensures |Tick(u, now).verdicts| <= 2
    ensures Idle(u) ==> Tick(u, now).verdicts == []
  {
  }

  // ---------------------------------------------------------------- invariant

  lemma HandleReplyKeepsHolders(us: seq<StorageUnit>, index: map<Key, nat>, r: Reply)
    ensures var us' := HandleReply(us, index, r).units;
      forall i :: 0 <= i < |us| ==> us'[i].callback == us[i].callback && us'[i].operation.mode == us[i].operation.mode
  {
  }

  lemma UnitAfterHolder(s: System, e: Event)
    requires !e.Deliver? && e.id < |s.units|
    ensures var u, u' := s.units[e.id], UnitAfter(s, e);
      && (Accepts(s, e) ==> u'.callback == Some(s.accepted) && !Idle(u'))
      && (!Accepts(s, e) ==> u'.callback == u.callback || u'.callback == None)
      && (!Accepts(s, e) && !Idle(u') && u'.callback.Some? ==> !Idle(u))
      && (!Accepts(s, e) && !e.TickUnit? && !Idle(u) ==> u'.callback == u.callback && !Idle(u'))
  {
  }

  lemma NoNewHolder(s: System, e: Event, i: nat, k: nat)
    requires i < |s.units|
    ensures Holds(Step(s, e).units[i], k) ==> Holds(s.units[i], k) || (i == e.id && Accepts(s, e) && k == s.accepted)
  {
    if e.Deliver? {
      HandleReplyKeepsHolders(s.units, s.index, e.reply);
      hide HandleReply;
    } else if i == e.id {
      UnitAfterHolder(s, e);
      hide UnitAfter;
    }
  }

  lemma NoNewCallback(s: System, e: Event, i: nat)
    requires i < |s.units| && Known(s.units, s.accepted)
    ensures var c := Step(s, e).units[i].callback; c.Some? ==> c.value < Step(s, e).accepted
  {
    if e.Deliver? {
      HandleReplyKeepsHolders(s.units, s.index, e.reply);
      hide HandleReply;
    } else if i == e.id {
      UnitAfterHolder(s, e);
      hide UnitAfter;
    }
  }

  lemma StepKeepsInv(s: System, e: Event)
    requires Inv(s)
    ensures Inv(Step(s, e)) && Step(s, e).accepted >= s.accepted
  {
    var us' := Step(s, e).units;
    hide Step;
    forall i: nat | i < |us'|
      ensures us'[i].callback.Some? ==> us'[i].callback.value < Step(s, e).accepted
    {
      NoNewCallback(s, e, i);
    }
    forall i: nat, j: nat, k: nat | i < j < |us'| && Holds(us'[i], k)
      ensures !Holds(us'[j], k)
    {
      NoNewHolder(s, e, i, k);
      NoNewHolder(s, e, j, k);
    }
    AcceptedGrows(s, e);
  }

  lemma AcceptedGrows(s: System, e: Event)
    ensures Step(s, e).accepted == s.accepted + if Accepts(s, e) then 1 else 0
  {
  }

  /** Only the tick that ends an operation speaks to it. */
  lemma StepVerdicts(s: System, e: Event, k: nat)
    requires Inv(s)
    ensures Verdicts(Step(s, e).log, k) == Verdicts(s.log, k)
      + if e.TickUnit? && e.id < |s.units| && s.units[e.id].callback == Some(k)
        then Tick(s.units[e.id], e.now).verdicts else []
  {
    hide Tick, Verdicts, Callbacks;
    if e.TickUnit? && e.id < |s.units| {
      VerdictsAppend(s.log, Callbacks(s.units[e.id], e.now), k);
      CallbackVerdicts(s.units[e.id], e.now, k);
    }
  }

  // ---------------------------------------------------------------- theorem

  /** Where operation `k` stands after a run, and which tick its verdicts came from. */
  ghost predicate Settled(s: System, es: seq<Event>, k: nat) {
    var t := Run(s, es);
    var told := Verdicts(t.log, k);
    && (k >= t.accepted ==> told == [] && !Pending(t, k))
    && (Pending(t, k) ==> told == [])
    && (k < t.accepted && !Pending(t, k) ==> exists i :: EndsBy(s, es, k, i, told))
    && (forall i, verdicts :: EndsBy(s, es, k, i, verdicts) ==> verdicts == told)
  }

  lemma TickEnds(u: StorageUnit, now: int, k: nat)
    requires Holds(u, k)
    ensures Tick(u, now).verdicts == [] <==> Holds(Tick(u, now).unit, k)
    ensures Tick(u, now).verdicts != [] ==> Idle(Tick(u, now).unit)
  {
  }

  lemma EndedMeansVerdicts(s: System, id: nat, now: int, k: nat, verdicts: seq<bool>)
    ensures EndedByTick(s, id, now, k, verdicts)
       <==> id < |s.units| && Holds(s.units[id], k) && verdicts == Tick(s.units[id], now).verdicts && verdicts != []
  {
  }

  lemma EndsByPrefix(s: System, es: seq<Event>, e: Event, k: nat, i: nat, verdicts: seq<bool>)
    ensures i < |es| ==> (EndsBy(s, es + [e], k, i, verdicts) <==> EndsBy(s, es, k, i, verdicts))
    ensures i == |es| ==>
      (EndsBy(s, es + [e], k, i, verdicts) <==> e.TickUnit? && EndedByTick(Run(s, es), e.id, e.now, k, verdicts))
  {
    hide EndedByTick;
    if i <= |es| { assert (es + [e])[..i] == es[..i]; }
    assert es[..|es|] == es;
  }

  predicate Quiet(s: System, e: Event, k: nat) {
    e.TickUnit? && e.id < |s.units| && Holds(s.units[e.id], k) ==> Tick(s.units[e.id], e.now).verdicts == []
  }

  lemma HolderStep(s: System, e: Event, k: nat, i: nat)
    requires Inv(s) && Quiet(s, e, k) && i < |s.units|
    ensures Holds(Step(s, e).units[i], k) <==> Holds(s.units[i], k) || (k == s.accepted && Accepts(s, e) && i == e.id)
  {
    if e.Deliver? {
      HandleReplyKeepsHolders(s.units, s.index, e.reply);
      hide HandleReply;
    } else if i == e.id {
      UnitAfterHolder(s, e);
      if e.TickUnit? && Holds(s.units[i], k) { TickEnds(s.units[i], e.now, k); }
      hide UnitAfter;
    }
  }

  /** An event that does not end `k` neither speaks to it nor lets go of it. */
  lemma QuietStep(s: System, e: Event, k: nat)
    requires Inv(s) && Quiet(s, e, k)
    ensures Verdicts(Step(s, e).log, k) == Verdicts(s.log, k)
    ensures Pending(Step(s, e), k) <==> Pending(s, k) || (k == s.accepted && Accepts(s, e))
  {
    StepVerdicts(s, e, k);
    if e.TickUnit? && e.id < |s.units| { IdleSaysNothing(s.units[e.id], e.now); }
    hide Step, Quiet, Verdicts;
    forall i | 0 <= i < |s.units|
      ensures Holds(Step(s, e).units[i], k) <==> Holds(s.units[i], k) || (k == s.accepted && Accepts(s, e) && i == e.id)
    {
      HolderStep(s, e, k, i);
    }
  }

  lemma IdleSaysNothing(u: StorageUnit, now: int)
    ensures Idle(u) ==> Tick(u, now).verdicts == []
  {
  }

  /** The tick that ends `k` tells it the verdicts and leaves no unit holding it. */
  lemma EndingStep(s: System, id: nat, now: int, k: nat)
    requires Inv(s) && id < |s.units| && Holds(s.units[id], k) && Tick(s.units[id], now).verdicts != []
    ensures var t := Step(s, TickUnit(id, now));
      Verdicts(t.log, k) == Verdicts(s.log, k) + Tick(s.units[id], now).verdicts && !Pending(t, k)
  {
    StepVerdicts(s, TickUnit(id, now), k);
    TickEnds(s.units[id], now, k);
    hide Tick, Verdicts;
    var t := Step(s, TickUnit(id, now));
    forall i | 0 <= i < |s.units|
      ensures !Holds(t.units[i], k)
    {
      if i != id { OneHolder(s.units, i, id, k); }
    }
  }

  lemma OneHolder(us: seq<StorageUnit>, i: nat, j: nat, k: nat)
    requires Distinct(us) && i < |us| && j < |us| && i != j && Holds(us[j], k)
    ensures !Holds(us[i], k)
  {
  }

  lemma {:induction false} RunSettles(s: System, es: seq<Event>, k: nat)
    requires Initial(s)
    ensures Inv(Run(s, es)) && Settled(s, es, k)
  {
    if es == [] {
      VerdictsNone(k);
    } else {
      var before, e := es[..|es| - 1], es[|es| - 1];
      RunSettles(s, before, k);
      assert es == before + [e];
      StepKeepsInv(Run(s, before), e);
      if Quiet(Run(s, before), e, k) {
        QuietSettles(s, before, e, k);
      } else {
        EndingSettles(s, before, e, k);
      }
    }
  }

  lemma RunMore(s: System, es: seq<Event>, e: Event)
    ensures Run(s, es + [e]) == Step(Run(s, es), e)
  {
    assert (es + [e])[..|es + [e]| - 1] == es;
  }

  lemma QuietSettles(s: System, es: seq<Event>, e: Event, k: nat)
    requires Settled(s, es, k) && Inv(Run(s, es)) && Quiet(Run(s, es), e, k)
    ensures Settled(s, es + [e], k)
  {
    var p := Run(s, es);
    RunMore(s, es, e);
    QuietStep(p, e, k);
    StepKeepsInv(p, e);
    hide Step, Verdicts, Inv, EndsBy, Pending, Run;
    var told := Verdicts(p.log, k);
    forall i: nat, verdicts: seq<bool> | EndsBy(s, es + [e], k, i, verdicts)
      ensures verdicts == told
    {
      EndsByPrefix(s, es, e, k, i, verdicts);
      LastIsQuiet(s, es, e, k, i, verdicts);
    }
    if k < p.accepted && !Pending(p, k) {
      var i :| EndsBy(s, es, k, i, told);
      EndsByPrefix(s, es, e, k, i, told);
      EndsByBound(s, es, k, i, told);
    }
  }

  lemma EndsByBound(s: System, es: seq<Event>, k: nat, i: nat, verdicts: seq<bool>)
    requires EndsBy(s, es, k, i, verdicts)
    ensures i < |es|
  {
  }

  lemma LastIsQuiet(s: System, es: seq<Event>, e: Event, k: nat, i: nat, verdicts: seq<bool>)
    requires EndsBy(s, es + [e], k, i, verdicts) && Quiet(Run(s, es), e, k)
    ensures i < |es|
  {
    if i == |es| {
      EndsByPrefix(s, es, e, k, i, verdicts);
      EndedMeansVerdicts(Run(s, es), e.id, e.now, k, verdicts);
      assert false;
    }
  }

  lemma EndingSettles(s: System, es: seq<Event>, e: Event, k: nat)
    requires Settled(s, es, k) && Inv(Run(s, es)) && !Quiet(Run(s, es), e, k)
    ensures Settled(s, es + [e], k)
  {
    var p := Run(s, es);
    RunMore(s, es, e);
    EndingStep(p, e.id, e.now, k);
    assert Pending(p, k);
    var told := Tick(p.units[e.id], e.now).verdicts;
    EndedMeansVerdicts(p, e.id, e.now, k, told);
    EndsByPrefix(s, es, e, k, |es|, told);
    HolderIsAccepted(p, e.id, k);
    assert Step(p, e).accepted == p.accepted;
    hide Step, Verdicts, Inv, EndsBy, Pending, Tick, Run;
    assert Verdicts(Run(s, es + [e]).log, k) == told;
    forall i: nat, verdicts: seq<bool> | EndsBy(s, es + [e], k, i, verdicts)
      ensures verdicts == told
    {
      EndsByPrefix(s, es, e, k, i, verdicts);
      EndsByBound(s, es + [e], k, i, verdicts);
      if i < |es| {
        EndsNonempty(s, es, k, i, verdicts);
      } else {
        EndedMeansVerdicts(p, e.id, e.now, k, verdicts);
      }
    }
  }

  lemma EndsNonempty(s: System, es: seq<Event>, k: nat, i: nat, verdicts: seq<bool>)
    requires EndsBy(s, es, k, i, verdicts)
    ensures verdicts != []
  {
  }

  lemma HolderIsAccepted(s: System, id: nat, k: nat)
    requires Inv(s) && id < |s.units| && Holds(s.units[id], k)
    ensures k < s.accepted
  {
  }

  /**
   Every run: an operation never accepted is told nothing; an accepted one is told nothing while it is
   pending, and afterwards exactly what the one tick that ended it says: success alone, failure alone, or
   success and then failure when the successful tick came at or after the time left in the timeout union.
   */
  lemma CompletionLog(s: System, es: seq<Event>, k: nat)
    requires Initial(s)
    ensures var t := Run(s, es); var told := Verdicts(t.log, k);
      && (k >= t.accepted ==> told == [] && !Pending(t, k))
      && (k < t.accepted ==> (told == [] <==> Pending(t, k)))
      && Lawful(told)
      && (told != [] ==> exists i :: EndsBy(s, es, k, i, told))
      && (forall i, verdicts :: EndsBy(s, es, k, i, verdicts) ==> verdicts == told)
  {
    RunSettles(s, es, k);
    hide Run, Verdicts, Pending;
  }

  // ---------------------------------------------------------------- the double verdict is real

  lemma RunFour(s: System, a: Event, b: Event, c: Event, d: Event)
    ensures Run(s, [a, b, c, d]) == Step(Step(Step(Step(s, a), b), c), d)
  {
    hide Step;
    assert Run(s, []) == s && [] + [a] == [a];
    RunMore(s, [], a);
    RunMore(s, [a], b);
    RunMore(s, [a, b], c);
    RunMore(s, [a, b, c], d);
    assert [a] + [b] == [a, b] && [a, b] + [c] == [a, b, c] && [a, b, c] + [d] == [a, b, c, d];
  }

  function OneUnit(u: StorageUnit): System {
    System([u], map[u.info.key := 0], 0, [])
  }

  /** One read of a unit whose reply and deadline have both passed when the next tick comes. */
  lemma BothVerdicts()
    ensures var key := Key(0x5090, 0);
      var s := OneUnit(StorageUnit(StorageInfo(key, Size1, {}), IDLE, 0, 0, 0, None));
      Initial(s) &&
      Run(s, [CallRead(0, 10), TickUnit(0, 100), Deliver(ReadSuccess(key, Size1, 7)), TickUnit(0, 110)]).log
        == [Completion(0, true), Completion(0, false)]
  {
    var key := Key(0x5090, 0);
    var s := OneUnit(StorageUnit(StorageInfo(key, Size1, {}), IDLE, 0, 0, 0, None));
    var reply := ReadSuccess(key, Size1, 7);
    RunFour(s, CallRead(0, 10), TickUnit(0, 100), Deliver(reply), TickUnit(0, 110));
    var s2 := Step(Step(s, CallRead(0, 10)), TickUnit(0, 100));
    assert s2.units[0].operation == Operation(READ, READING) && s2.units[0].timer == 110 && s2.log == [];
    var s3 := Step(s2, Deliver(reply));
    assert s3.units[0].operation == Operation(READ, SUCCESS) && s3.units[0].callback == Some(0) && s3.log == [];
    BothCallbacks(s3.units[0], 110, 0);
  }

  lemma BothCallbacks(u: StorageUnit, now: int, k: nat)
    requires Holds(u, k) && Succeeds(u) && now >= u.timer
    ensures Callbacks(u, now) == [Completion(k, true), Completion(k, false)]
  {
  }

  // ---------------------------------------------------------------- what the handler's methods run

  lemma {:induction false} RunAppend(s: System, es: seq<Event>, more: seq<Event>)
    ensures Run(s, es + more) == Run(Run(s, es), more)
    ensures Run(s, es + more).accepted >= Run(s, es).accepted
  {
    hide Step;
    if more == [] {
      assert es + more == es;
    } else {
      var n := |more| - 1;
      RunAppend(s, es, more[..n]);
      assert es + more == (es + more[..n]) + [more[n]];
      RunMore(s, es + more[..n], more[n]);
      AcceptedGrows(Run(s, es + more[..n]), more[n]);
    }
  }

  /** The requests put on the wire by the ticks of a run, in order. */
  function RequestsOf(s: System, es: seq<Event>): seq<Request> {
    if es == [] then []
    else
      var before, e := es[..|es| - 1], es[|es| - 1];
      RequestsOf(s, before)
      + if e.TickUnit? && e.id < |s.units| then Issued(Run(s, before).units[e.id], e.now) else []
  }

  lemma RequestsMore(s: System, es: seq<Event>, e: Event)
    ensures RequestsOf(s, es + [e]) == RequestsOf(s, es)
      + if e.TickUnit? && e.id < |s.units| then Issued(Run(s, es).units[e.id], e.now) else []
  {
    hide Run, Issued;
    assert (es + [e])[..|es|] == es;
  }

  lemma {:induction false} RequestsQuiet(s: System, es: seq<Event>, more: seq<Event>)
    requires forall e :: e in more ==> !e.TickUnit?
    ensures RequestsOf(s, es + more) == RequestsOf(s, es)
  {
    hide Run, Issued, RequestsOf;
    if more == [] {
      assert es + more == es;
    } else {
      var n := |more| - 1;
      RequestsQuiet(s, es, more[..n]);
      RequestsMore(s, es + more[..n], more[n]);
      assert es + more == es + more[..n] + [more[n]];
    }
  }

  /** Every write issued carries a value of its declared width. */
  lemma {:induction false} RequestsWellFormed(s: System, es: seq<Event>)
    ensures forall r :: r in RequestsOf(s, es) ==> WellFormedRequest(r)
  {
    hide Run;
    if es != [] { RequestsWellFormed(s, es[..|es| - 1]); }
  }

  /** The first `n` turns of a pass, each with what the other threads do before it. */
  function Schedule(others: seq<seq<Event>>, now: int, n: nat): seq<Event>
    requires n <= |others|
  {
    if n == 0 then [] else Schedule(others, now, n - 1) + others[n - 1] + [TickUnit(n - 1, now)]
  }

  predicate NoTicks(others: seq<seq<Event>>) {
    forall i :: 0 <= i < |others| ==> forall e :: e in others[i] ==> !e.TickUnit?
  }

  /** One more turn. */
  lemma ScheduleMore(s: System, others: seq<seq<Event>>, now: int, n: nat)
    requires n < |others| && NoTicks(others)
    ensures Run(s, Schedule(others, now, n + 1))
         == Step(Run(Run(s, Schedule(others, now, n)), others[n]), TickUnit(n, now))
    ensures n < |s.units| ==> (
      RequestsOf(s, Schedule(others, now, n + 1)) == RequestsOf(s, Schedule(others, now, n))
        + Issued(Run(Run(s, Schedule(others, now, n)), others[n]).units[n], now))
  {
    hide Run, Step, Issued, RequestsOf;
    var es := Schedule(others, now, n);
    RunAppend(s, es, others[n]);
    RunMore(s, es + others[n], TickUnit(n, now));
    RequestsQuiet(s, es, others[n]);
    RequestsMore(s, es + others[n], TickUnit(n, now));
  }

  lemma {:induction false} ScheduleRequests(s: System, others: seq<seq<Event>>, now: int, n: nat)
    requires n <= |others| && n <= |s.units| && NoTicks(others)
    ensures |RequestsOf(s, Schedule(others, now, n))| <= n
  {
    hide Run, RequestsOf, Tick;
    if n > 0 {
      ScheduleRequests(s, others, now, n - 1);
      ScheduleMore(s, others, now, n - 1);
    } else {
      NoRequests(s);
    }
  }

  lemma NoRequests(s: System)
    ensures RequestsOf(s, []) == []
  {
  }

  function TickEvents(n: nat, now: int): seq<Event> {
    seq(n, i requires 0 <= i < n => TickUnit(i, now))
  }

  /** One pass of the tick loop is the run of its units' turns. */
  lemma TickPassIsRun(s: System, now: int)
    ensures Run(s, TickEvents(|s.units|, now))
         == s.(units := TickUnits(s.units, now), log := s.log + TickCallbacks(s.units, now))
  {
    TickPrefixIsRun(s, |s.units|, now);
    assert s.units[..|s.units|] == s.units;
    assert TickUnits(s.units, now) + [] == TickUnits(s.units, now);
  }

  function AfterTicks(s: System, n: nat, now: int): System
    requires n <= |s.units|
  {
    s.(units := TickUnits(s.units[..n], now) + s.units[n..], log := s.log + TickCallbacks(s.units[..n], now))
  }

  lemma {:induction false} TickPrefixIsRun(s: System, n: nat, now: int)
    requires n <= |s.units|
    ensures Run(s, TickEvents(n, now)) == AfterTicks(s, n, now)
  {
    if n == 0 {
      assert TickUnits(s.units[..0], now) + s.units[0..] == s.units;
    } else {
      TickPrefixIsRun(s, n - 1, now);
      assert TickEvents(n, now) == TickEvents(n - 1, now) + [TickUnit(n - 1, now)];
      hide AfterTicks, Step, Run;
      RunMore(s, TickEvents(n - 1, now), TickUnit(n - 1, now));
      OneMoreTick(s, n - 1, now);
    }
  }

  lemma OneMoreTick(s: System, n: nat, now: int)
    requires n < |s.units|
    ensures Step(AfterTicks(s, n, now), TickUnit(n, now)) == AfterTicks(s, n + 1, now)
  {
    hide Tick, Callbacks;
    assert s.units[..n + 1][..n] == s.units[..n];
    assert (TickUnits(s.units[..n], now) + s.units[n..])[n := Tick(s.units[n], now).unit]
        == TickUnits(s.units[..n + 1], now) + s.units[n + 1..];
  }

  /** With nothing in between, a pass is the run of its turns, and issues what the units ask for in order. */
  lemma {:induction false} QuietPass(s: System, others: seq<seq<Event>>, now: int, n: nat)
    requires n <= |others| && n <= |s.units| && forall i :: 0 <= i < |others| ==> others[i] == []
    ensures Schedule(others, now, n) == TickEvents(n, now)
    ensures RequestsOf(s, Schedule(others, now, n)) == TickRequests(s.units[..n], now)
  {
    hide RequestsOf, TickRequests, Issued, Step, Run;
    assert s.units[..0] == [];
    if n > 0 {
      QuietPass(s, others, now, n - 1);
      assert TickEvents(n, now) == TickEvents(n - 1, now) + [TickUnit(n - 1, now)];
      assert TickEvents(n - 1, now) + [] == TickEvents(n - 1, now);
      QuietTurn(s, now, n - 1);
    } else {
      NoRequests(s);
      NothingToTick(now);
    }
  }

  lemma NothingToTick(now: int)
    ensures TickRequests([], now) == []
  {
  }

  lemma QuietTurn(s: System, now: int, n: nat)
    requires n < |s.units|
    ensures RequestsOf(s, TickEvents(n, now) + [TickUnit(n, now)])
         == RequestsOf(s, TickEvents(n, now)) + Issued(s.units[n], now)
    ensures TickRequests(s.units[..n + 1], now) == TickRequests(s.units[..n], now) + Issued(s.units[n], now)
  {
    hide RequestsOf, Issued, Run;
    TickPrefixIsRun(s, n, now);
    RequestsMore(s, TickEvents(n, now), TickUnit(n, now));
    assert AfterTicks(s, n, now).units[n] == s.units[n];
    assert s.units[..n + 1][..n] == s.units[..n];
  }

  function Deliveries(rs: seq<Reply>): seq<Event> {
    seq(|rs|, i requires 0 <= i < |rs| => Deliver(rs[i]))
  }

  /** The replies of one frame are the run of their deliveries, up to the first whose unit is unknown. */
  lemma {:induction false} FrameIsRun(s: System, rs: seq<Reply>) returns (m: nat)
    ensures m <= |rs| && (HandleReplies(s.units, s.index, rs).known ==> m == |rs|)
    ensures Run(s, Deliveries(rs[..m])) == s.(units := HandleReplies(s.units, s.index, rs).units)
  {
    hide HandleReply;
    if rs == [] {
      m := 0;
    } else {
      var before := rs[..|rs| - 1];
      m := FrameIsRun(s, before);
      assert rs[..m] == before[..m];
      if HandleReplies(s.units, s.index, before).known {
        m := |rs|;
        assert rs[..m] == rs && before[..|before|] == before;
        assert Deliveries(rs) == Deliveries(before) + [Deliver(rs[|rs| - 1])];
        RunMore(s, Deliveries(before), Deliver(rs[|rs| - 1]));
      }
    }
  }
}
