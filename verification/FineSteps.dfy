/**
 One unit under three threads at the granularity of the code: every load and every store of a shared
 field is a step. The threads load the operation word and store it back later without comparing, so a
 store may overwrite a newer operation.
 */
module FineSteps {
  import opened Common
  import opened Wire
  import opened StorageUnits

  datatype Call =
    | ReadCall(timeout: int, checked: bool)
    | WriteCall(data: nat, timeout: int, checked: bool)

  datatype User =
    | UserIdle
    | UserEntered(call: Call)                 // an unchecked write has stored its value before looking
    | UserStoringValue(call: Call)
    | UserStoringTimer(call: Call)
    | UserStoringCallback(call: Call)
    | UserStoringOperation(call: Call)

  datatype Ticker =
    | TickIdle
    | TickLoaded(op: Operation, now: int)     // the local copy, SUCCESS already forced for a masked unit
    | TickEnding(op: Operation, now: int, callback: Option<nat>, verdict: bool)
    | TickCalling(op: Operation, now: int, callback: Option<nat>, verdict: bool)
    | TickTesting(op: Operation, now: int)    // at the WAITING test, about to read the timeout union
    | TickArming(op: Operation, deadline: int)
    | TickArmed(op: Operation)
    | TickFailing(op: Operation, now: int)
    | TickConfirming(op: Operation)

  datatype EventThread =
    | EventIdle
    | EventLoaded(op: Operation, reply: Reply)
    | EventStoringVersion(op: Operation)
    | EventStoring(op: Operation)

  /** `accepted` numbers the checked calls, and so their callbacks. */
  datatype Fine = Fine(
    unit: StorageUnit, accepted: nat, user: User, tick: Ticker, event: EventThread, log: seq<Completion>)

  datatype FineStep =
    | UserCalls(call: Call)
    | UserGoesOn
    | TickBegins(now: int)
    | TickGoesOn
    | ReplyComes(reply: Reply)
    | EventGoesOn

  function Advance(f: Fine, s: FineStep): Fine {
    match s
    case UserCalls(call) => if f.user.UserIdle? then UserEnters(f, call) else f
    case UserGoesOn => UserAdvance(f)
    case TickBegins(now) => if f.tick.TickIdle? then TickLoads(f, now) else f
    case TickGoesOn => TickAdvance(f)
    case ReplyComes(reply) =>
      if f.event.EventIdle? && Addressed(reply) && reply.key == f.unit.info.key then EventLoads(f, reply) else f
    case EventGoesOn => EventAdvance(f)
  }

  function RunFine(f: Fine, steps: seq<FineStep>): Fine {
    if steps == [] then f else Advance(RunFine(f, steps[..|steps| - 1]), steps[|steps| - 1])
  }

  // ---------------------------------------------------------------- user thread

  predicate StoresFirst(call: Call) {
    call.WriteCall? && !call.checked
  }

  function UserEnters(f: Fine, call: Call): Fine {
    if StoresFirst(call) then f.(unit := f.unit.(value := call.data), user := UserEntered(call))
    else UserChecks(f, call)
  }

  function UserChecks(f: Fine, call: Call): Fine {
    f.(user :=
      if !Idle(f.unit) then UserIdle
      else if call.WriteCall? && call.checked then UserStoringValue(call)
      else UserStoringTimer(call))
  }

  function UserAdvance(f: Fine): Fine {
    match f.user
    case UserIdle => f
    case UserEntered(call) => UserChecks(f, call)
    case UserStoringValue(call) =>
      f.(unit := f.unit.(value := if call.WriteCall? then call.data else f.unit.value), user := UserStoringTimer(call))
    case UserStoringTimer(call) => f.(unit := f.unit.(timer := call.timeout), user := UserStoringCallback(call))
    case UserStoringCallback(call) =>
      f.(unit := f.unit.(callback := if call.checked then Some(f.accepted) else None),
         user := UserStoringOperation(call))
    case UserStoringOperation(call) =>
      f.(unit := f.unit.(operation := Operation(if call.ReadCall? then READ else WRITE, WAITING)),
         accepted := if call.checked then f.accepted + 1 else f.accepted,
         user := UserIdle)
  }

  // ---------------------------------------------------------------- tick thread

  function TickLoads(f: Fine, now: int): Fine {
    var op := f.unit.operation;
    if op.mode == NONE then f
    else f.(tick := TickLoaded(if Masked(f.unit) then op.(state := SUCCESS) else op, now))
  }

  function Tell(log: seq<Completion>, callback: Option<nat>, verdict: bool): seq<Completion> {
    if callback.Some? then log + [Completion(callback.value, verdict)] else log
  }

  function TickAdvance(f: Fine): Fine {
    match f.tick
    case TickIdle => f
    case TickLoaded(op, now) =>
      f.(tick := if op.state == SUCCESS then TickEnding(op, now, f.unit.callback, true) else TickTesting(op, now))
    case TickEnding(op, now, callback, verdict) =>
      f.(unit := f.unit.(operation := op.(mode := NONE)),
         tick := TickCalling(op.(mode := NONE), now, callback, verdict))
    case TickCalling(op, now, callback, verdict) =>
      f.(log := Tell(f.log, callback, verdict), tick := if verdict then TickTesting(op, now) else TickIdle)
    case TickTesting(op, now) => TickTests(f, op, now)
    case TickArming(op, deadline) => f.(unit := f.unit.(timer := deadline), tick := TickArmed(op))
    case TickArmed(op) =>
      f.(unit := f.unit.(operation := op.(state := if op.mode == READ then READING else WRITING)), tick := TickIdle)
    case TickFailing(op, now) => f.(tick := TickEnding(op, now, f.unit.callback, false))
    case TickConfirming(op) => f.(unit := f.unit.(operation := op.(state := WRITING_CONFIRMING)), tick := TickIdle)
  }

  function TickTests(f: Fine, op: Operation, now: int): Fine {
    if op.state == WAITING then f.(tick := TickArming(op, Deadline(now, f.unit.timer)))
    else if now >= f.unit.timer then f.(tick := TickFailing(op, now))
    else if op.state == WRITING then f.(tick := TickConfirming(op))
    else f.(tick := TickIdle)
  }

  // ---------------------------------------------------------------- event thread

  function EventLoads(f: Fine, reply: Reply): Fine {
    if f.unit.operation.mode == NONE then f else f.(event := EventLoaded(f.unit.operation, reply))
  }

  function EventAdvance(f: Fine): Fine {
    match f.event
    case EventIdle => f
    case EventLoaded(op, reply) => EventHandles(f, op, reply)
    case EventStoringVersion(op) =>
      f.(unit := f.unit.(version := NextVersion(f.unit.version)), event := EventStoring(op))
    case EventStoring(op) => f.(unit := f.unit.(operation := op), event := EventIdle)
  }

  function EventHandles(f: Fine, op: Operation, reply: Reply): Fine {
    if reply.WriteSuccess? then
      f.(event := if op.state == WRITING then EventStoring(op.(state := SUCCESS)) else EventIdle)
    else if !reply.ReadSuccess? then f.(event := EventIdle)
    else if op.state == READING then
      f.(unit := f.unit.(value := reply.value), event := EventStoringVersion(op.(state := SUCCESS)))
    else if op.state == WRITING_CONFIRMING then
      f.(event := EventStoring(
           op.(state := if reply.value == Truncate(f.unit.value, reply.size) then SUCCESS else WRITING)))
    else f.(event := EventIdle)
  }

  // ---------------------------------------------------------------- phase invariant

  /** The mode and state of an operation word belong together. */
  predicate Matched(op: Operation) {
    match op.mode
    case NONE => op.state != WAITING
    case READ => op.state in {WAITING, READING, SUCCESS}
    case WRITE => op.state in {WAITING, WRITING, WRITING_CONFIRMING, SUCCESS}
  }

  predicate TickMatched(t: Ticker) {
    match t
    case TickIdle => true
    case TickLoaded(op, _) => Matched(op) && op.mode != NONE
    case TickEnding(op, _, _, _) => op.state != WAITING
    case TickCalling(op, _, _, _) => op.mode == NONE && op.state != WAITING
    case TickTesting(op, _) => Matched(op) && (op.mode == NONE ==> op.state == SUCCESS)
    case TickArming(op, _) => Matched(op) && op.state == WAITING
    case TickArmed(op) => Matched(op) && op.state == WAITING
    case TickFailing(op, _) => op.state != WAITING
    case TickConfirming(op) => op.mode == WRITE
  }

  predicate EventMatched(e: EventThread) {
    match e
    case EventIdle => true
    case EventLoaded(op, _) => Matched(op) && op.mode != NONE
    case EventStoringVersion(op) => Matched(op) && op.mode != NONE
    case EventStoring(op) => Matched(op) && op.mode != NONE
  }

  predicate PhaseInv(f: Fine) {
    && Matched(f.unit.operation)
    && TickMatched(f.tick) && EventMatched(f.event)
    && (f.tick.TickCalling? && f.tick.verdict ==> f.tick.op.state == SUCCESS)
    && (f.tick.TickEnding? && f.tick.verdict ==> f.tick.op.state == SUCCESS)
  }

  lemma AdvanceKeepsPhase(f: Fine, s: FineStep)
    requires PhaseInv(f)
    ensures PhaseInv(Advance(f, s))
  {
    hide Truncate, Deadline;
  }

  predicate AtRest(f: Fine) {
    f.user.UserIdle? && f.tick.TickIdle? && f.event.EventIdle? && Matched(f.unit.operation)
  }

  /** Whatever stores overtake each other, the shared word never pairs a mode with a state of the other. */
  lemma {:induction false} PhaseInvariant(f: Fine, steps: seq<FineStep>)
    requires AtRest(f)
    ensures PhaseInv(RunFine(f, steps)) && Matched(RunFine(f, steps).unit.operation)
  {
    hide Advance;
    if steps != [] {
      PhaseInvariant(f, steps[..|steps| - 1]);
      AdvanceKeepsPhase(RunFine(f, steps[..|steps| - 1]), steps[|steps| - 1]);
    }
  }

  // ---------------------------------------------------------------- what the coarse theorems leave out

  /** `n` steps of one thread on its own. */
  function TickBy(f: Fine, n: nat): Fine
    decreases n
  {
    if n == 0 then f else TickBy(Advance(f, TickGoesOn), n - 1)
  }

  function EventBy(f: Fine, n: nat): Fine
    decreases n
  {
    if n == 0 then f else EventBy(Advance(f, EventGoesOn), n - 1)
  }

  function UserBy(f: Fine, n: nat): Fine
    decreases n
  {
    if n == 0 then f else UserBy(Advance(f, UserGoesOn), n - 1)
  }

  function Resting(u: StorageUnit, accepted: nat): Fine {
    Fine(u, accepted, UserIdle, TickIdle, EventIdle, [])
  }

  lemma TickSplit(f: Fine, n: nat, m: nat)
    ensures TickBy(f, n + m) == TickBy(TickBy(f, n), m)
    decreases n
  {
    hide Advance;
    if n > 0 { TickSplit(Advance(f, TickGoesOn), n - 1, m); }
  }

  /** Left to itself, the tick thread does in at most seven steps what the coarse tick does in one. */
  lemma UninterruptedTick(f: Fine, now: int)
    requires f.tick.TickIdle?
    ensures TickBy(Advance(f, TickBegins(now)), 7)
         == f.(unit := Tick(f.unit, now).unit, log := f.log + Callbacks(f.unit, now))
  {
    var u, g := f.unit, Advance(f, TickBegins(now));
    if Idle(u) {
      assert g == f;
      TickRests(f, 7);
      assert f.log + Callbacks(u, now) == f.log;
    } else if Succeeds(u) {
      TickSplit(g, 3, 4);
      SuccessTick(f, now);
    } else {
      TickSplit(g, 1, 6);
      assert TickBy(g, 1).tick == TickTesting(u.operation, now);
      PlainTick(f, now);
    }
  }

  lemma {:induction false} TickRests(f: Fine, n: nat)
    requires f.tick.TickIdle?
    ensures TickBy(f, n) == f
  {
    if n > 0 { TickRests(f, n - 1); }
  }

  lemma SuccessTick(f: Fine, now: int)
    requires f.tick.TickIdle? && Succeeds(f.unit)
    ensures TickBy(TickBy(Advance(f, TickBegins(now)), 3), 4)
         == f.(unit := Tick(f.unit, now).unit, log := f.log + Callbacks(f.unit, now))
  {
    var u := f.unit;
    var told := TickBy(Advance(f, TickBegins(now)), 3);
    assert told == f.(unit := u.(operation := IDLE), tick := TickTesting(IDLE, now),
                      log := Tell(f.log, u.callback, true));
    if now < u.timer {
      TickSplit(told, 1, 3);
      TickRests(TickBy(told, 1), 3);
    }
    if u.callback.Some? {
      assert Callbacks(u, now) == if now < u.timer then [Completion(u.callback.value, true)]
                                  else [Completion(u.callback.value, true)] + [Completion(u.callback.value, false)];
    }
  }

  lemma PlainTick(f: Fine, now: int)
    requires f.tick.TickIdle? && !Idle(f.unit) && !Succeeds(f.unit)
    ensures TickBy(f.(tick := TickTesting(f.unit.operation, now)), 6)
         == f.(unit := Tick(f.unit, now).unit, log := f.log + Callbacks(f.unit, now))
  {
    hide Deadline, Truncate;
    var u, g := f.unit, f.(tick := TickTesting(f.unit.operation, now));
    if u.operation.state == WAITING {
      TickSplit(g, 3, 3);
      TickRests(TickBy(g, 3), 3);
    } else if now >= u.timer {
      TickSplit(g, 4, 2);
      TickRests(TickBy(g, 4), 2);
      if u.callback.Some? { assert Callbacks(u, now) == [Completion(u.callback.value, false)]; }
    } else {
      TickSplit(g, 2, 4);
      TickRests(TickBy(g, 2), 4);
    }
  }

  /** Likewise one reply. */
  lemma UninterruptedReply(f: Fine, r: Reply)
    requires f.event.EventIdle? && r.key == f.unit.info.key
    ensures EventBy(Advance(f, ReplyComes(r)), 3) == f.(unit := OnReply(f.unit, r))
  {
    hide Truncate;
    var g := Advance(f, ReplyComes(r));
    assert EventBy(g, 3) == Advance(Advance(Advance(g, EventGoesOn), EventGoesOn), EventGoesOn);
  }

  /** The unit after a call that runs on its own. */
  function Called(u: StorageUnit, accepted: nat, call: Call): StorageUnit {
    match call
    case ReadCall(timeout, true) => ReadAsync(u, timeout, accepted).GetOr(u)
    case ReadCall(timeout, false) => ReadAsyncUnchecked(u, timeout)
    case WriteCall(data, timeout, true) => WriteAsync(u, data, timeout, accepted).GetOr(u)
    case WriteCall(data, timeout, false) => WriteAsyncUnchecked(u, data, timeout)
  }

  function AcceptedBy(u: StorageUnit, accepted: nat, call: Call): nat {
    if call.checked && Idle(u) then accepted + 1 else accepted
  }

  /** Likewise one call of any of the four entry points. */
  lemma UninterruptedCall(f: Fine, call: Call)
    requires f.user.UserIdle?
    ensures UserBy(Advance(f, UserCalls(call)), 5)
         == f.(unit := Called(f.unit, f.accepted, call), accepted := AcceptedBy(f.unit, f.accepted, call))
  {
    var g := Advance(f, UserCalls(call));
    assert UserBy(g, 5)
        == Advance(Advance(Advance(Advance(Advance(g, UserGoesOn), UserGoesOn), UserGoesOn), UserGoesOn), UserGoesOn);
  }
}
