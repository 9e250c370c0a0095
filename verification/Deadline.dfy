/** When an operation of an unmasked unit times out, on runs of coarse steps. */
module Deadlines {
  import opened Common
  import Wire
  import opened StorageUnits
  import opened Completions

  predicate IsInt64(x: int) {
    TIME_MIN <= x <= TIME_MAX
  }

  /** The deadline is the sum where that fits and is wanted, else the end of time; nothing overflows on the way. */
  lemma DeadlineIsSaturatingSum(now: int, timeout: int)
    requires IsInt64(now) && IsInt64(timeout)
    ensures timeout >= 0 ==> IsInt64(TIME_MAX - timeout)
    ensures Deadline(now, timeout) == if 0 <= timeout && now + timeout <= TIME_MAX then now + timeout else TIME_MAX
    ensures IsInt64(Deadline(now, timeout))
  {
  }

  /** The timeout the unit's latest operation was given and the time of the tick that armed it. */
  datatype History = History(timeout: int, armed: Option<int>)

  function TimeoutOf(e: Event): int
    requires !e.TickUnit? && !e.Deliver?
  {
    e.timeout
  }

  predicate Starts(s: System, e: Event, id: nat) {
    !e.TickUnit? && !e.Deliver? && e.id == id && id < |s.units| && Idle(s.units[id])
  }

  predicate Arms(s: System, e: Event, id: nat) {
    && e.TickUnit? && e.id == id && id < |s.units|
    && !Idle(s.units[id]) && !Masked(s.units[id]) && s.units[id].operation.state == WAITING
  }

  /** Read off the run alone: the last call that started an operation on the unit, and the tick that armed it. */
  function HistoryOf(s: System, es: seq<Event>, id: nat): Option<History> {
    if es == [] then None
    else
      var e, before := es[|es| - 1], es[..|es| - 1];
      var p := Run(s, before);
      if Starts(p, e, id) then Some(History(TimeoutOf(e), None))
      else if Arms(p, e, id) then
        match HistoryOf(s, before, id)
        case None => None
        case Some(h) => Some(h.(armed := Some(e.now)))
      else HistoryOf(s, before, id)
  }

  /** The timeout union of a busy unit: the raw timeout until the first tick, that tick's deadline after. */
  ghost predicate Timed(u: StorageUnit, h: Option<History>) {
    !Idle(u) ==>
      && h.Some?
      && if u.operation.state == WAITING then h.value.armed.None? && u.timer == h.value.timeout
         else h.value.armed.Some? && u.timer == Deadline(h.value.armed.value, h.value.timeout)
  }

  lemma UnitStep(s: System, e: Event, id: nat)
    requires id < |s.units|
    ensures e.Deliver? ==>
      Step(s, e).units[id] in {s.units[id], OnReply(s.units[id], e.reply)}
    ensures e.Deliver? && !Reaches(s, e, id) ==> Step(s, e).units[id] == s.units[id]
    ensures !e.Deliver? && e.id == id ==> Step(s, e).units[id] == UnitAfter(s, e)
    ensures !e.Deliver? && e.id != id ==> Step(s, e).units[id] == s.units[id]
    ensures Step(s, e).units[id].info == s.units[id].info
  {
    hide OnReply;
    if e.Deliver? {
      assert OnReply(s.units[id], e.reply).info == s.units[id].info by { ReplyKeepsTimer(s.units[id], e.reply); }
    }
  }

  lemma ReplyKeepsTimer(u: StorageUnit, r: Wire.Reply)
    ensures var v := OnReply(u, r);
      && v.info == u.info && v.timer == u.timer && v.callback == u.callback && v.operation.mode == u.operation.mode
      && (v.operation.state == WAITING <==> u.operation.state == WAITING)
  {
  }

  lemma {:induction false} RunTimed(s: System, es: seq<Event>, id: nat)
    requires id < |s.units| && Idle(s.units[id]) && !Masked(s.units[id])
    ensures !Masked(Run(s, es).units[id])
    ensures Timed(Run(s, es).units[id], HistoryOf(s, es, id))
  {
    if es != [] {
      var before, e := es[..|es| - 1], es[|es| - 1];
      RunTimed(s, before, id);
      StepTimed(Run(s, before), e, id, HistoryOf(s, before, id), HistoryOf(s, es, id));
    }
  }

  lemma StepTimed(p: System, e: Event, id: nat, h: Option<History>, h': Option<History>)
    requires id < |p.units| && !Masked(p.units[id]) && Timed(p.units[id], h)
    requires h' == if Starts(p, e, id) then Some(History(TimeoutOf(e), None))
                   else if Arms(p, e, id) && h.Some? then Some(h.value.(armed := Some(e.now)))
                   else h
    ensures !Masked(Step(p, e).units[id]) && Timed(Step(p, e).units[id], h')
  {
    UnitStep(p, e, id);
    if e.Deliver? {
      ReplyKeepsTimer(p.units[id], e.reply);
      hide OnReply, Step, Deadline;
    } else {
      hide Step, Deadline;
    }
  }

  /** On every run, while an operation is under way past its first tick the union holds its deadline. */
  lemma DeadlineHeld(s: System, es: seq<Event>, id: nat)
    requires Initial(s) && id < |s.units| && !Masked(s.units[id])
    ensures var u, h := Run(s, es).units[id], HistoryOf(s, es, id);
      !Idle(u) && u.operation.state != WAITING ==>
        && h.Some? && h.value.armed.Some?
        && u.timer == Deadline(h.value.armed.value, h.value.timeout)
  {
    RunTimed(s, es, id);
    hide Run, HistoryOf, Deadline;
  }

  /** No tick says failure before the deadline, or at all, short of the clock's maximum, without one. */
  lemma NoEarlyFailure(s: System, es: seq<Event>, id: nat, now: int)
    requires Initial(s) && id < |s.units| && !Masked(s.units[id])
    requires false in Tick(Run(s, es).units[id], now).verdicts
    ensures var h := HistoryOf(s, es, id);
      && h.Some? && h.value.armed.Some?
      && (now < TIME_MAX ==> 0 <= h.value.timeout && h.value.armed.value + h.value.timeout <= now)
  {
    RunTimed(s, es, id);
    hide Run, HistoryOf;
  }

  // ---------------------------------------------------------------- without a reply

  /** No acknowledgement and no value comes for the unit; error replies may, which the code ignores. */
  ghost predicate NoReplyFor(s: System, es: seq<Event>, id: nat) {
    forall e :: e in es ==> !Reaches(s, e, id)
  }

  predicate Reaches(s: System, e: Event, id: nat) {
    e.Deliver? && Addressed(e.reply) && e.reply.key in s.index && s.index[e.reply.key] == id
  }

  ghost predicate TicksBefore(es: seq<Event>, id: nat, deadline: int) {
    forall e :: e in es ==> !TicksAt(e, id, deadline)
  }

  predicate TicksAt(e: Event, id: nat, deadline: int) {
    e.TickUnit? && e.id == id && e.now >= deadline
  }

  predicate ArmedFor(u: StorageUnit, k: nat, deadline: int) {
    && Holds(u, k) && !Masked(u) && u.timer == deadline
    && u.operation.state !in {WAITING, SUCCESS}
  }

  lemma ArmedStaysArmed(s: System, e: Event, id: nat, k: nat, deadline: int)
    requires id < |s.units| && ArmedFor(s.units[id], k, deadline)
    requires !Reaches(s, e, id) && !TicksAt(e, id, deadline)
    ensures ArmedFor(Step(s, e).units[id], k, deadline)
  {
    UnitStep(s, e, id);
    hide Step;
  }

  lemma ArmedIsQuiet(s: System, e: Event, id: nat, k: nat, deadline: int)
    requires Inv(s) && id < |s.units| && ArmedFor(s.units[id], k, deadline) && !TicksAt(e, id, deadline)
    ensures Completions.Quiet(s, e, k)
  {
    if e.TickUnit? && e.id < |s.units| && e.id != id { OneHolder(s.units, e.id, id, k); }
    hide Inv;
  }

  lemma ArmedExpires(u: StorageUnit, now: int, k: nat, deadline: int)
    requires ArmedFor(u, k, deadline) && now >= deadline
    ensures Tick(u, now).verdicts == [false]
  {
  }

  lemma NotPendingIsQuiet(s: System, e: Event, k: nat)
    requires !Pending(s, k)
    ensures Completions.Quiet(s, e, k)
  {
  }

  /**
   An armed operation that no reply reaches is pending exactly as long as no tick of its unit has come at or
   after the deadline; the first such tick tells it failure, and nothing else ever tells it anything.
   */
  lemma {:induction false} EndsAtDeadline(s: System, es: seq<Event>, id: nat, k: nat, deadline: int)
    requires Inv(s) && id < |s.units| && ArmedFor(s.units[id], k, deadline) && NoReplyFor(s, es, id)
    ensures var t := Run(s, es);
      && Inv(t) && k < t.accepted
      && (TicksBefore(es, id, deadline) <==> Pending(t, k))
      && (TicksBefore(es, id, deadline) ==> ArmedFor(t.units[id], k, deadline))
      && Verdicts(t.log, k) == Verdicts(s.log, k) + if TicksBefore(es, id, deadline) then [] else [false]
  {
    hide Step, Verdicts, Inv, ArmedFor, Pending, Reaches, TicksAt;
    if es == [] {
      ArmedIsPending(s, id, k, deadline);
      assert Verdicts(s.log, k) + [] == Verdicts(s.log, k);
    } else {
      var before, e := es[..|es| - 1], es[|es| - 1];
      assert es == before + [e];
      EndsAtDeadline(s, before, id, k, deadline);
      SameReach(s, Run(s, before), e, id);
      DeadlineStep(Run(s, before), e, id, k, deadline, TicksBefore(before, id, deadline));
    }
  }

  lemma ArmedIsPending(s: System, id: nat, k: nat, deadline: int)
    requires Inv(s) && id < |s.units| && ArmedFor(s.units[id], k, deadline)
    ensures Pending(s, k) && k < s.accepted
  {
    HolderIsAccepted(s, id, k);
  }

  lemma SameReach(s: System, t: System, e: Event, id: nat)
    requires s.index == t.index
    ensures Reaches(s, e, id) == Reaches(t, e, id)
  {
  }

  /** One more event; `armed` says whether the operation is still waiting for its deadline. */
  lemma DeadlineStep(p: System, e: Event, id: nat, k: nat, deadline: int, armed: bool)
    requires Inv(p) && k < p.accepted && id < |p.units| && !Reaches(p, e, id)
    requires if armed then ArmedFor(p.units[id], k, deadline) else !Pending(p, k)
    ensures var t := Step(p, e); var still := armed && !TicksAt(e, id, deadline);
      && Inv(t) && k < t.accepted
      && (still <==> Pending(t, k))
      && (still ==> ArmedFor(t.units[id], k, deadline))
      && Verdicts(t.log, k) == Verdicts(p.log, k) + if armed && !still then [false] else []
  {
    StepKeepsInv(p, e);
    hide Inv, Step, Verdicts;
    if armed && TicksAt(e, id, deadline) {
      ArmedExpires(p.units[id], e.now, k, deadline);
      EndingStep(p, id, e.now, k);
      assert e == TickUnit(id, e.now);
    } else if armed {
      ArmedIsQuiet(p, e, id, k, deadline);
      QuietStep(p, e, k);
      ArmedStaysArmed(p, e, id, k, deadline);
    } else {
      NotPendingIsQuiet(p, e, k);
      QuietStep(p, e, k);
    }
  }

  // ---------------------------------------------------------------- whatever replies arrive

  predicate Underway(u: StorageUnit, k: nat, deadline: int) {
    Holds(u, k) && !Masked(u) && u.timer == deadline && u.operation.state != WAITING
  }

  lemma UnderwayTick(u: StorageUnit, now: int, k: nat, deadline: int)
    requires Underway(u, k, deadline)
    ensures now >= deadline ==> Tick(u, now).verdicts != []
    ensures Tick(u, now).verdicts == [] ==> Underway(Tick(u, now).unit, k, deadline)
  {
  }

  /** Short of the tick that ends it nothing moves an operation off its deadline. */
  lemma UnderwayStep(s: System, e: Event, id: nat, k: nat, deadline: int)
    requires Inv(s) && id < |s.units| && Underway(s.units[id], k, deadline) && Completions.Quiet(s, e, k)
    ensures Underway(Step(s, e).units[id], k, deadline) && !TicksAt(e, id, deadline)
  {
    UnitStep(s, e, id);
    if e.Deliver? { ReplyKeepsTimer(s.units[id], e.reply); }
    if e.TickUnit? && e.id == id { UnderwayTick(s.units[id], e.now, k, deadline); }
    hide Step, Inv, OnReply, Tick;
  }

  /**
   An operation past its first tick is over after the first tick of its unit at or after its deadline, whatever
   replies have come: as long as it is pending there has been no such tick.
   */
  lemma {:induction false} OverByDeadline(s: System, es: seq<Event>, id: nat, k: nat, deadline: int)
    requires Inv(s) && id < |s.units| && Underway(s.units[id], k, deadline)
    ensures var t := Run(s, es);
      && Inv(t) && k < t.accepted
      && (Pending(t, k) ==> TicksBefore(es, id, deadline) && Underway(t.units[id], k, deadline))
  {
    hide Step, Inv, Pending, Underway, TicksAt, Completions.Quiet, Tick;
    if es == [] {
      UnderwayAccepted(s, id, k, deadline);
    } else {
      var before, e := es[..|es| - 1], es[|es| - 1];
      OverByDeadline(s, before, id, k, deadline);
      OverStep(Run(s, before), e, id, k, deadline);
      assert es == before + [e];
    }
  }

  lemma UnderwayAccepted(s: System, id: nat, k: nat, deadline: int)
    requires Inv(s) && id < |s.units| && Underway(s.units[id], k, deadline)
    ensures k < s.accepted
  {
    HolderIsAccepted(s, id, k);
  }

  lemma OverStep(p: System, e: Event, id: nat, k: nat, deadline: int)
    requires Inv(p) && k < p.accepted && id < |p.units|
    requires Pending(p, k) ==> Underway(p.units[id], k, deadline)
    ensures Inv(Step(p, e)) && k < Step(p, e).accepted
    ensures Pending(Step(p, e), k) ==>
      Pending(p, k) && !TicksAt(e, id, deadline) && Underway(Step(p, e).units[id], k, deadline)
  {
    StepKeepsInv(p, e);
    if Completions.Quiet(p, e, k) {
      QuietStep(p, e, k);
      if Pending(p, k) { UnderwayStep(p, e, id, k, deadline); }
    } else {
      EndingStep(p, e.id, e.now, k);
      assert e == TickUnit(e.id, e.now);
    }
    hide Step, Inv, Underway, TicksAt, Tick, Pending;
  }
}
