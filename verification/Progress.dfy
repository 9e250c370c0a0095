/**
 What an operation brings about when the channel lets it: which requests go out and when, that what is lost is sent
 again however often that happens, and that the operation then ends in success. Tick times are arbitrary.
 */
module Progress {
  import opened Common
  import opened Wire
  import opened StorageUnits
  import opened Completions
  import opened Worlds

  /** The unit that owns the key. */
  ghost predicate At(w: World, j: nat, key: Key, size: Size, u: StorageUnit) {
    Owns(w.host, j, key, size) && w.host.units[j] == u
  }

  lemma AtInfo(w: World, j: nat, key: Key, size: Size, u: StorageUnit)
    requires At(w, j, key, size, u)
    ensures u.info.key == key && u.info.size == size && !Masked(u)
  {
  }

  /** Nothing but new requests and replies in flight, new callbacks, and what happened to units. */
  predicate Adds(w: World, w': World, requests: set<Request>, replies: set<Reply>, calls: seq<Completion>) {
    && w'.registers == w.registers
    && w'.toDevice == w.toDevice + requests && w'.toHost == w.toHost + replies
    && w'.host.log == w.host.log + calls
  }

  /** Checked and unchecked calls; only a checked one has a callback. */
  function ReadCall(j: nat, timeout: int, checked: bool): Event {
    if checked then CallRead(j, timeout) else CallReadUnchecked(j, timeout)
  }

  function WriteCall(j: nat, data: nat, timeout: int, checked: bool): Event {
    if checked then CallWrite(j, data, timeout) else CallWriteUnchecked(j, data, timeout)
  }

  function CallbackOf(s: System, checked: bool): Option<nat> {
    if checked then Some(s.accepted) else None
  }

  function Told(callback: Option<nat>): seq<Completion> {
    if callback.Some? then [Completion(callback.value, true)] else []
  }

  // ---------------------------------------------------------------- one action

  function Requested(u: StorageUnit, now: int): set<Request> {
    if Tick(u, now).request.Some? then {Tick(u, now).request.value} else {}
  }

  lemma OwnTick(w: World, j: nat, now: int, key: Key, size: Size, u: StorageUnit)
    requires At(w, j, key, size, u)
    ensures var w' := Act(w, Host(TickUnit(j, now)));
      At(w', j, key, size, Tick(u, now).unit) && Adds(w, w', Requested(u, now), {}, Callbacks(u, now))
  {
    StepKeepsOwner(w.host, TickUnit(j, now), j, key, size);
    hide OwnsKey, Tick, Callbacks;
  }

  lemma OwnReply(w: World, j: nat, key: Key, size: Size, u: StorageUnit, r: Reply)
    requires At(w, j, key, size, u) && r in w.toHost && r.key == key && Addressed(r)
    ensures var w' := Act(w, Host(Deliver(r))); At(w', j, key, size, OnReply(u, r)) && Adds(w, w', {}, {}, [])
  {
    StepKeepsOwner(w.host, Deliver(r), j, key, size);
    DeliverToOwner(w.host, r, j, key, size);
    hide OwnsKey, OnReply, HandleReply;
  }

  lemma Answered(w: World, j: nat, key: Key, size: Size, u: StorageUnit)
    requires At(w, j, key, size, u) && Read(key) in w.toDevice && key in w.registers
    ensures var r := ReadSuccess(key, size, Truncate(w.registers[key], size));
      var w' := Act(w, DeviceRead(key, size)); At(w', j, key, size, u) && Adds(w, w', {}, {r}, [])
  {
    hide OwnsKey, Truncate;
  }

  lemma Executed(w: World, j: nat, key: Key, size: Size, u: StorageUnit, v: nat)
    requires At(w, j, key, size, u) && Write(key, size, v) in w.toDevice
    ensures var w' := Act(w, DeviceWrite(key, size, v));
      && At(w', j, key, size, u) && w'.registers == w.registers[key := v] && w'.toDevice == w.toDevice
      && WriteSuccess(key) in w'.toHost && w'.host.log == w.host.log
  {
    hide OwnsKey;
  }

  lemma Lost(w: World, j: nat, key: Key, size: Size, u: StorageUnit, r: Request)
    requires At(w, j, key, size, u)
    ensures var w' := Act(w, LoseRequest(r));
      && At(w', j, key, size, u) && w'.registers == w.registers && w'.toDevice == w.toDevice - {r}
      && w'.toHost == w.toHost && w'.host.log == w.host.log
  {
    hide OwnsKey;
  }

  lemma TickSays(u: StorageUnit, now: int)
    ensures Tick(u, now).verdicts == [] ==> Callbacks(u, now) == []
    ensures Tick(u, now).verdicts == [true] ==> Callbacks(u, now) == Told(u.callback)
  {
    hide Tick;
  }

  // ---------------------------------------------------------------- one operation, step by step

  /** The unit once an operation on it is armed. */
  function Armed(u: StorageUnit, mode: Mode, state: State, value: nat, deadline: int, callback: Option<nat>)
    : StorageUnit
  {
    u.(operation := Operation(mode, state), value := value, timer := deadline, callback := callback)
  }

  lemma StartedAndArmed(w: World, j: nat, e: Event, mode: Mode, value: nat, checked: bool, now: int,
    key: Key, size: Size, u: StorageUnit)
    requires At(w, j, key, size, u) && Idle(u)
    requires mode != NONE && (mode == READ ==> value == u.value)
    requires !e.Deliver? && !e.TickUnit?
      && e == if mode == READ then ReadCall(j, e.timeout, checked) else WriteCall(j, value, e.timeout, checked)
    ensures var called := Act(w, Host(e)); var t := Act(called, Host(TickUnit(j, now)));
      && At(t, j, key, size, Armed(u, mode, if mode == READ then READING else WRITING, value,
                                   Deadline(now, e.timeout), CallbackOf(w.host, checked)))
      && Adds(w, called, {}, {}, []) && Adds(w, t, {}, {}, [])
  {
    var called := Act(w, Host(e));
    var waiting := Armed(u, mode, WAITING, value, e.timeout, CallbackOf(w.host, checked));
    CalledUnit(w, j, e, mode, value, checked, key, size, u);
    ArmingTick(waiting, now);
    OwnTick(called, j, now, key, size, waiting);
    hide Act, Owns, Tick, Callbacks, Deadline;
  }

  lemma CalledUnit(w: World, j: nat, e: Event, mode: Mode, value: nat, checked: bool,
    key: Key, size: Size, u: StorageUnit)
    requires At(w, j, key, size, u) && Idle(u)
    requires mode != NONE && (mode == READ ==> value == u.value)
    requires !e.Deliver? && !e.TickUnit?
      && e == if mode == READ then ReadCall(j, e.timeout, checked) else WriteCall(j, value, e.timeout, checked)
    ensures var called := Act(w, Host(e));
      && At(called, j, key, size, Armed(u, mode, WAITING, value, e.timeout, CallbackOf(w.host, checked)))
      && Adds(w, called, {}, {}, [])
  {
    StepKeepsOwner(w.host, e, j, key, size);
    hide OwnsKey;
  }

  lemma ArmingTick(u: StorageUnit, now: int)
    requires u.operation.mode != NONE && u.operation.state == WAITING && !Masked(u)
    ensures var t := Tick(u, now);
      && t.unit == u.(timer := Deadline(now, u.timer),
                      operation := Operation(u.operation.mode, if u.operation.mode == READ then READING else WRITING))
      && Requested(u, now) == {} && Callbacks(u, now) == []
  {
    hide Deadline, Truncate;
  }

  lemma WritingTick(u: StorageUnit, now: int)
    requires u.operation == Operation(WRITE, WRITING) && !Masked(u) && now < u.timer
    ensures Tick(u, now).unit == u.(operation := Operation(WRITE, WRITING_CONFIRMING))
    ensures Requested(u, now) == {Write(u.info.key, u.info.size, Truncate(u.value, u.info.size))}
    ensures Callbacks(u, now) == []
  {
    hide Truncate;
  }

  lemma AskingTick(u: StorageUnit, now: int)
    requires u.operation in {Operation(READ, READING), Operation(WRITE, WRITING_CONFIRMING)}
    requires !Masked(u) && now < u.timer
    ensures Tick(u, now).unit == u && Requested(u, now) == {Read(u.info.key)} && Callbacks(u, now) == []
  {
    hide Truncate;
  }

  lemma TellingTick(u: StorageUnit, now: int)
    requires u.operation.mode != NONE && u.operation.state == SUCCESS && now < u.timer
    ensures Tick(u, now).unit == u.(operation := IDLE) && Requested(u, now) == {}
    ensures Callbacks(u, now) == Told(u.callback)
  {
    TickSays(u, now);
    hide Truncate, Callbacks;
  }

  lemma AddsNothingFirst(w: World, a: World, b: World, requests: set<Request>)
    requires Adds(w, a, {}, {}, []) && Adds(a, b, requests, {}, [])
    ensures Adds(w, b, requests, {}, [])
  {
  }

  // ---------------------------------------------------------------- the first request

  /**
   A write call on an idle unit: the first tick sends nothing, the second, before the deadline, sends the write
   with the value cut to the unit's size. That is all that is sent, and nobody is told anything.
   */
  lemma WriteIsSent(w: World, j: nat, data: nat, timeout: int, checked: bool, t1: int, t2: int, key: Key, size: Size)
    requires Owns(w.host, j, key, size) && Idle(w.host.units[j]) && t2 < Deadline(t1, timeout)
    ensures var call, first, second :=
        Host(WriteCall(j, data, timeout, checked)), Host(TickUnit(j, t1)), Host(TickUnit(j, t2));
      && Adds(w, RunWorld(w, [call, first]), {}, {}, [])
      && Adds(w, RunWorld(w, [call, first, second]), {Write(key, size, Truncate(data, size))}, {}, [])
      && At(RunWorld(w, [call, first, second]), j, key, size,
            Armed(w.host.units[j], WRITE, WRITING_CONFIRMING, data, Deadline(t1, timeout), CallbackOf(w.host, checked)))
  {
    var e, u := WriteCall(j, data, timeout, checked), w.host.units[j];
    var armed := Armed(u, WRITE, WRITING, data, Deadline(t1, timeout), CallbackOf(w.host, checked));
    StartedAndArmed(w, j, e, WRITE, data, checked, t1, key, size, u);
    hide Act, Owns, Tick, Callbacks, Deadline, Truncate, RunWorld, WriteCall, Requested;
    WritingTick(armed, t2);
    var started := Act(Act(w, Host(e)), Host(TickUnit(j, t1)));
    OwnTick(started, j, t2, key, size, armed);
    AddsNothingFirst(w, started, Act(started, Host(TickUnit(j, t2))), Requested(armed, t2));
    hide Adds;
    RunThree(w, Host(e), Host(TickUnit(j, t1)), Host(TickUnit(j, t2)));
  }

  /** A read call likewise sends a read of the key on the second tick, and never a write. */
  lemma ReadIsSent(w: World, j: nat, timeout: int, checked: bool, t1: int, t2: int, key: Key, size: Size)
    requires Owns(w.host, j, key, size) && Idle(w.host.units[j]) && t2 < Deadline(t1, timeout)
    ensures var call, first, second :=
        Host(ReadCall(j, timeout, checked)), Host(TickUnit(j, t1)), Host(TickUnit(j, t2));
      && Adds(w, RunWorld(w, [call, first]), {}, {}, [])
      && Adds(w, RunWorld(w, [call, first, second]), {Read(key)}, {}, [])
      && At(RunWorld(w, [call, first, second]), j, key, size,
            Armed(w.host.units[j], READ, READING, w.host.units[j].value,
                  Deadline(t1, timeout), CallbackOf(w.host, checked)))
  {
    var e, u := ReadCall(j, timeout, checked), w.host.units[j];
    var armed := Armed(u, READ, READING, u.value, Deadline(t1, timeout), CallbackOf(w.host, checked));
    StartedAndArmed(w, j, e, READ, u.value, checked, t1, key, size, u);
    hide Act, Owns, Tick, Callbacks, Deadline, Truncate, RunWorld, ReadCall, Requested;
    AskingTick(armed, t2);
    var started := Act(Act(w, Host(e)), Host(TickUnit(j, t1)));
    OwnTick(started, j, t2, key, size, armed);
    AddsNothingFirst(w, started, Act(started, Host(TickUnit(j, t2))), Requested(armed, t2));
    hide Adds;
    RunThree(w, Host(e), Host(TickUnit(j, t1)), Host(TickUnit(j, t2)));
  }

  // ---------------------------------------------------------------- what is lost is sent again

  /** A write that has been sent and waits to be confirmed, with its deadline ahead of all these times. */
  predicate Confirming(u: StorageUnit, times: set<int>) {
    u.operation == Operation(WRITE, WRITING_CONFIRMING) && forall t :: t in times ==> t < u.timer
  }

  /** The host asks at `t1` and learns that the register holds something else. */
  function Asks(j: nat, key: Key, size: Size, held: nat, t1: int): seq<Action> {
    [Host(TickUnit(j, t1)), DeviceRead(key, size), Host(Deliver(ReadSuccess(key, size, Truncate(held, size))))]
  }

  lemma AskedAndAnswered(w: World, j: nat, key: Key, size: Size, u: StorageUnit, t1: int)
    requires At(w, j, key, size, u) && key in w.registers && t1 < u.timer
    requires u.operation in {Operation(READ, READING), Operation(WRITE, WRITING_CONFIRMING)}
    ensures var r := ReadSuccess(key, size, Truncate(w.registers[key], size));
      var t := RunWorld(w, Asks(j, key, size, w.registers[key], t1));
      At(t, j, key, size, OnReply(u, r)) && Adds(w, t, {Read(key)}, {r}, [])
  {
    var r := ReadSuccess(key, size, Truncate(w.registers[key], size));
    AskingTick(u, t1);
    OwnTick(w, j, t1, key, size, u);
    hide Act, OwnsKey, Tick, Callbacks, Truncate, RunWorld, OnReply;
    var asked := Act(w, Host(TickUnit(j, t1)));
    Answered(asked, j, key, size, u);
    OwnReply(Act(asked, DeviceRead(key, size)), j, key, size, u, r);
    RunThree(w, Host(TickUnit(j, t1)), DeviceRead(key, size), Host(Deliver(r)));
  }

  lemma MismatchSendsAgain(u: StorageUnit, r: Reply)
    requires u.operation == Operation(WRITE, WRITING_CONFIRMING)
    requires r.ReadSuccess? && r.value != Truncate(u.value, r.size)
    ensures OnReply(u, r) == u.(operation := Operation(WRITE, WRITING))
  {
    hide Truncate;
  }

  lemma MatchSucceeds(u: StorageUnit, r: Reply)
    requires u.operation == Operation(WRITE, WRITING_CONFIRMING)
    requires r.ReadSuccess? && r.value == Truncate(u.value, r.size)
    ensures OnReply(u, r) == u.(operation := Operation(WRITE, SUCCESS))
  {
    hide Truncate;
  }

  /**
   A lost write is sent again: the device is asked, answers that its register differs, and the next tick puts the
   same write on the wire. The unit is then where it was.
   */
  lemma LostWriteIsSentAgain(w: World, j: nat, key: Key, size: Size, u: StorageUnit, t1: int, t2: int)
    requires At(w, j, key, size, u) && Confirming(u, {t1, t2})
    requires key in w.registers && Truncate(w.registers[key], size) != Truncate(u.value, size)
    ensures var answered := RunWorld(w, Asks(j, key, size, w.registers[key], t1));
      var t := Act(answered, Host(TickUnit(j, t2)));
      && answered.toDevice == w.toDevice + {Read(key)}
      && t.toDevice == w.toDevice + {Read(key), Write(key, size, Truncate(u.value, size))}
      && At(t, j, key, size, u) && t.registers == w.registers && t.host.log == w.host.log
  {
    hide Act, OwnsKey, Tick, Callbacks, Truncate, RunWorld, OnReply, Asks;
    var r := ReadSuccess(key, size, Truncate(w.registers[key], size));
    assert t1 in {t1, t2} && t2 in {t1, t2};
    AtInfo(w, j, key, size, u);
    AskedAndAnswered(w, j, key, size, u, t1);
    MismatchSendsAgain(u, r);
    var again := u.(operation := Operation(WRITE, WRITING));
    WritingTick(again, t2);
    OwnTick(RunWorld(w, Asks(j, key, size, w.registers[key], t1)), j, t2, key, size, again);
    var answered := RunWorld(w, Asks(j, key, size, w.registers[key], t1));
    assert again.(operation := Operation(WRITE, WRITING_CONFIRMING)) == u;
    assert answered.toDevice + {Write(key, size, Truncate(u.value, size))}
        == w.toDevice + {Read(key), Write(key, size, Truncate(u.value, size))};
  }

  /** One lost transmission and what follows it. */
  function LostRound(j: nat, key: Key, size: Size, data: nat, held: nat, t1: int, t2: int): seq<Action> {
    [LoseRequest(Write(key, size, Truncate(data, size)))] + Asks(j, key, size, held, t1) + [Host(TickUnit(j, t2))]
  }

  /** Any number of them, at any times. */
  function LostRounds(j: nat, key: Key, size: Size, data: nat, held: nat, rounds: seq<(int, int)>): seq<Action> {
    if rounds == [] then []
    else
      var n := |rounds| - 1;
      LostRounds(j, key, size, data, held, rounds[..n]) + LostRound(j, key, size, data, held, rounds[n].0, rounds[n].1)
  }

  lemma RoundSends(w: World, j: nat, key: Key, size: Size, u: StorageUnit, t1: int, t2: int)
    requires At(w, j, key, size, u) && Confirming(u, {t1, t2})
    requires key in w.registers && Truncate(w.registers[key], size) != Truncate(u.value, size)
    ensures var t := RunWorld(w, LostRound(j, key, size, u.value, w.registers[key], t1, t2));
      && At(t, j, key, size, u) && t.registers == w.registers && t.host.log == w.host.log
      && Write(key, size, Truncate(u.value, size)) in t.toDevice
  {
    hide Act, OwnsKey, Tick, Truncate, RunWorld, Asks, Confirming;
    var lose, asks := LoseRequest(Write(key, size, Truncate(u.value, size))), Asks(j, key, size, w.registers[key], t1);
    var lost := Act(w, lose);
    Lost(w, j, key, size, u, lose.request);
    LostWriteIsSentAgain(lost, j, key, size, u, t1, t2);
    RunOneThen(w, lose, asks);
    OneMoreAction(w, [lose] + asks, Host(TickUnit(j, t2)));
  }

  lemma RunOneThen(w: World, a: Action, more: seq<Action>)
    ensures RunWorld(w, [a] + more) == RunWorld(Act(w, a), more)
  {
    RunThree(w, a, a, a);
    RunWorldAppend(w, [a], more);
    assert RunWorld(w, []) == w && [] + [a] == [a];
    hide Act, RunWorld;
    OneMoreAction(w, [], a);
  }

  predicate BeforeDeadline(rounds: seq<(int, int)>, deadline: int) {
    forall i :: 0 <= i < |rounds| ==> rounds[i].0 < deadline && rounds[i].1 < deadline
  }

  /** However often the write is lost, it is on the wire again afterwards, and nobody has been told anything. */
  lemma {:induction false} LostAnyNumberOfTimes(
    w: World, j: nat, key: Key, size: Size, u: StorageUnit, rounds: seq<(int, int)>)
    requires At(w, j, key, size, u) && Confirming(u, {}) && BeforeDeadline(rounds, u.timer)
    requires key in w.registers && (rounds != [] ==> Truncate(w.registers[key], size) != Truncate(u.value, size))
    requires Write(key, size, Truncate(u.value, size)) in w.toDevice
    ensures var t := RunWorld(w, LostRounds(j, key, size, u.value, w.registers[key], rounds));
      && At(t, j, key, size, u) && t.registers == w.registers && t.host.log == w.host.log
      && Write(key, size, Truncate(u.value, size)) in t.toDevice
  {
    hide Act, OwnsKey, Truncate, LostRound;
    if rounds != [] {
      var n := |rounds| - 1;
      var before := LostRounds(j, key, size, u.value, w.registers[key], rounds[..n]);
      LostAnyNumberOfTimes(w, j, key, size, u, rounds[..n]);
      RoundSends(RunWorld(w, before), j, key, size, u, rounds[n].0, rounds[n].1);
      RunWorldAppend(w, before, LostRound(j, key, size, u.value, w.registers[key], rounds[n].0, rounds[n].1));
    }
  }

  // ---------------------------------------------------------------- and arrives

  /** The device executes the write, its acknowledgement comes, the host asks and is answered, and the tick tells. */
  function Confirmation(j: nat, key: Key, size: Size, v: nat, t3: int, t4: int): seq<Action> {
    [DeviceWrite(key, size, v), Host(Deliver(WriteSuccess(key)))] + Asks(j, key, size, v, t3) + [Host(TickUnit(j, t4))]
  }

  lemma TruncateAgain(x: nat, size: Size)
    ensures Truncate(Truncate(x, size), size) == Truncate(x, size)
  {
    TruncateFits(Truncate(x, size), size);
  }

  /** An acknowledgement is not taken for anything while the write waits to be confirmed by reading. */
  lemma AcknowledgementIgnored(w: World, j: nat, key: Key, size: Size, u: StorageUnit)
    requires At(w, j, key, size, u) && Confirming(u, {}) && WriteSuccess(key) in w.toHost
    ensures var t := Act(w, Host(Deliver(WriteSuccess(key)))); At(t, j, key, size, u) && Adds(w, t, {}, {}, [])
  {
    assert OnReply(u, WriteSuccess(key)) == u;
    hide Act, OwnsKey, OnReply;
    OwnReply(w, j, key, size, u, WriteSuccess(key));
  }

  lemma ExecutedAndAcknowledged(w: World, j: nat, key: Key, size: Size, u: StorageUnit, v: nat)
    requires At(w, j, key, size, u) && Confirming(u, {}) && Write(key, size, v) in w.toDevice
    ensures var t := RunWorld(w, [DeviceWrite(key, size, v), Host(Deliver(WriteSuccess(key)))]);
      At(t, j, key, size, u) && t.registers == w.registers[key := v] && t.host.log == w.host.log
  {
    Executed(w, j, key, size, u, v);
    hide Act, OwnsKey, Confirming, RunWorld;
    AcknowledgementIgnored(Act(w, DeviceWrite(key, size, v)), j, key, size, u);
    var ack := Host(Deliver(WriteSuccess(key)));
    RunThree(w, DeviceWrite(key, size, v), ack, ack);
  }

  /** Once it arrives, the write is told success, with the register at its value. */
  lemma WriteConfirmed(w: World, j: nat, key: Key, size: Size, u: StorageUnit, t3: int, t4: int)
    requires At(w, j, key, size, u) && Confirming(u, {t3, t4})
    requires Write(key, size, Truncate(u.value, size)) in w.toDevice
    ensures var v := Truncate(u.value, size); var t := RunWorld(w, Confirmation(j, key, size, v, t3, t4));
      && At(t, j, key, size, u.(operation := IDLE)) && t.registers == w.registers[key := v]
      && t.host.log == w.host.log + Told(u.callback)
  {
    assert t3 in {t3, t4} && t4 in {t3, t4};
    var v := Truncate(u.value, size);
    var start, asks := [DeviceWrite(key, size, v), Host(Deliver(WriteSuccess(key)))], Asks(j, key, size, v, t3);
    ExecutedAndAcknowledged(w, j, key, size, u, v);
    var at := RunWorld(w, start);
    TruncateAgain(u.value, size);
    hide Act, OwnsKey, Tick, Callbacks, Truncate, RunWorld, OnReply, Asks, Requested;
    AskedAndAnswered(at, j, key, size, u, t3);
    var answer := ReadSuccess(key, size, v);
    MatchSucceeds(u, answer);
    var done := u.(operation := Operation(WRITE, SUCCESS));
    TellingTick(done, t4);
    OwnTick(RunWorld(at, asks), j, t4, key, size, done);
    RunWorldAppend(w, start, asks);
    OneMoreAction(w, start + asks, Host(TickUnit(j, t4)));
  }

  /**
   The other confirmation: an answer from before the write arrived sets it to be sent again, but the acknowledgement
   comes first. It is told success with the register at its value, and nothing is sent again.
   */
  lemma AcknowledgedFirst(w: World, j: nat, key: Key, size: Size, u: StorageUnit, x: nat, now: int)
    requires At(w, j, key, size, u) && Confirming(u, {now}) && x != Truncate(u.value, size)
    requires ReadSuccess(key, size, x) in w.toHost && Write(key, size, Truncate(u.value, size)) in w.toDevice
    ensures var v := Truncate(u.value, size);
      var written := Act(Act(w, Host(Deliver(ReadSuccess(key, size, x)))), DeviceWrite(key, size, v));
      var t := Act(Act(written, Host(Deliver(WriteSuccess(key)))), Host(TickUnit(j, now)));
      && At(t, j, key, size, u.(operation := IDLE)) && t.registers == w.registers[key := v]
      && t.toDevice == w.toDevice && t.host.log == w.host.log + Told(u.callback)
  {
    assert now in {now};
    var v, r := Truncate(u.value, size), ReadSuccess(key, size, x);
    var again, done := u.(operation := Operation(WRITE, WRITING)), u.(operation := Operation(WRITE, SUCCESS));
    OwnReply(w, j, key, size, u, r);
    MismatchSendsAgain(u, r);
    assert OnReply(again, WriteSuccess(key)) == done;
    TellingTick(done, now);
    hide Act, OwnsKey, Tick, Callbacks, Truncate, OnReply, Requested;
    var learnt := Act(w, Host(Deliver(r)));
    Executed(learnt, j, key, size, again, v);
    var written := Act(learnt, DeviceWrite(key, size, v));
    OwnReply(written, j, key, size, again, WriteSuccess(key));
    OwnTick(Act(written, Host(Deliver(WriteSuccess(key)))), j, now, key, size, done);
  }

  /** A whole write: the call, two ticks, any number of lost transmissions, and the one that arrives. */
  function WholeWrite(j: nat, data: nat, timeout: int, checked: bool, key: Key, size: Size, held: nat,
    t1: int, t2: int, rounds: seq<(int, int)>, t3: int, t4: int): seq<Action>
  {
    [Host(WriteCall(j, data, timeout, checked)), Host(TickUnit(j, t1)), Host(TickUnit(j, t2))]
    + LostRounds(j, key, size, data, held, rounds)
    + Confirmation(j, key, size, Truncate(data, size), t3, t4)
  }

  /**
   However often its transmission is lost before the deadline, a write that then arrives has put its value into the
   register, is told success if it was a checked one, once, and leaves the unit idle.
   */
  lemma WriteGetsThrough(w: World, j: nat, data: nat, timeout: int, checked: bool, key: Key, size: Size,
    t1: int, t2: int, rounds: seq<(int, int)>, t3: int, t4: int)
    requires Owns(w.host, j, key, size) && Idle(w.host.units[j]) && key in w.registers
    requires t2 < Deadline(t1, timeout) && t3 < Deadline(t1, timeout) && t4 < Deadline(t1, timeout)
    requires BeforeDeadline(rounds, Deadline(t1, timeout))
    requires rounds != [] ==> Truncate(w.registers[key], size) != Truncate(data, size)
    ensures var t := RunWorld(
        w, WholeWrite(j, data, timeout, checked, key, size, w.registers[key], t1, t2, rounds, t3, t4));
      && Owns(t.host, j, key, size) && Idle(t.host.units[j]) && t.host.units[j].value == data
      && t.registers == w.registers[key := Truncate(data, size)]
      && t.host.log == w.host.log + if checked then [Completion(w.host.accepted, true)] else []
  {
    var u := Armed(w.host.units[j], WRITE, WRITING_CONFIRMING, data, Deadline(t1, timeout),
                   CallbackOf(w.host, checked));
    var start := [Host(WriteCall(j, data, timeout, checked)), Host(TickUnit(j, t1)), Host(TickUnit(j, t2))];
    var lost := LostRounds(j, key, size, data, w.registers[key], rounds);
    WriteIsSent(w, j, data, timeout, checked, t1, t2, key, size);
    hide Act, Owns, Deadline, Truncate, RunWorld, LostRounds, Confirmation, WriteCall;
    var sent := RunWorld(w, start);
    assert sent.registers == w.registers && sent.host.log == w.host.log;
    hide Adds;
    LostAnyNumberOfTimes(sent, j, key, size, u, rounds);
    WriteConfirmed(RunWorld(sent, lost), j, key, size, u, t3, t4);
    RunWorldAppend(w, start, lost);
    RunWorldAppend(w, start + lost, Confirmation(j, key, size, Truncate(data, size), t3, t4));
  }

  // ---------------------------------------------------------------- reads

  /** Each lost read request is followed by the next tick's. */
  function LostReads(j: nat, key: Key, times: seq<int>): seq<Action> {
    if times == [] then []
    else
      LostReads(j, key, times[..|times| - 1]) + [LoseRequest(Read(key)), Host(TickUnit(j, times[|times| - 1]))]
  }

  predicate AllBefore(times: seq<int>, deadline: int) {
    forall i :: 0 <= i < |times| ==> times[i] < deadline
  }

  lemma ReadAskedAgain(w: World, j: nat, key: Key, size: Size, u: StorageUnit, now: int)
    requires At(w, j, key, size, u) && u.operation == Operation(READ, READING) && now < u.timer
    ensures var t := RunWorld(w, [LoseRequest(Read(key)), Host(TickUnit(j, now))]);
      && At(t, j, key, size, u) && t.registers == w.registers && t.host.log == w.host.log
      && t.toDevice == w.toDevice + {Read(key)}
  {
    AskingTick(u, now);
    Lost(w, j, key, size, u, Read(key));
    AtInfo(w, j, key, size, u);
    hide Act, OwnsKey, Tick, Callbacks, RunWorld, Requested;
    var tick := Host(TickUnit(j, now));
    OwnTick(Act(w, LoseRequest(Read(key))), j, now, key, size, u);
    RunThree(w, LoseRequest(Read(key)), tick, tick);
  }

  lemma {:induction false} ReadLostAnyNumberOfTimes(
    w: World, j: nat, key: Key, size: Size, u: StorageUnit, times: seq<int>)
    requires At(w, j, key, size, u) && u.operation == Operation(READ, READING) && AllBefore(times, u.timer)
    requires Read(key) in w.toDevice
    ensures var t := RunWorld(w, LostReads(j, key, times));
      && At(t, j, key, size, u) && t.registers == w.registers && t.host.log == w.host.log
      && t.toDevice == w.toDevice
  {
    hide Act, OwnsKey;
    if times != [] {
      var n := |times| - 1;
      var before := LostReads(j, key, times[..n]);
      ReadLostAnyNumberOfTimes(w, j, key, size, u, times[..n]);
      ReadAskedAgain(RunWorld(w, before), j, key, size, u, times[n]);
      RunWorldAppend(w, before, [LoseRequest(Read(key)), Host(TickUnit(j, times[n]))]);
      assert w.toDevice + {Read(key)} == w.toDevice;
    }
  }

  lemma AnswerTaken(u: StorageUnit, r: Reply)
    requires u.operation == Operation(READ, READING) && r.ReadSuccess?
    ensures OnReply(u, r)
         == u.(value := r.value, version := NextVersion(u.version), operation := Operation(READ, SUCCESS))
  {
  }

  function ReadAnswered(j: nat, key: Key, size: Size, held: nat, now: int): seq<Action> {
    [DeviceRead(key, size), Host(Deliver(ReadSuccess(key, size, Truncate(held, size)))), Host(TickUnit(j, now))]
  }

  lemma ReadTold(w: World, j: nat, key: Key, size: Size, u: StorageUnit, now: int)
    requires At(w, j, key, size, u) && u.operation == Operation(READ, READING) && now < u.timer
    requires Read(key) in w.toDevice && key in w.registers
    ensures var t := RunWorld(w, ReadAnswered(j, key, size, w.registers[key], now));
      && Owns(t.host, j, key, size) && Idle(t.host.units[j])
      && t.host.units[j].value == Truncate(w.registers[key], size)
      && t.host.units[j].version == NextVersion(u.version)
      && t.registers == w.registers && t.toDevice == w.toDevice && t.host.log == w.host.log + Told(u.callback)
  {
    var r := ReadSuccess(key, size, Truncate(w.registers[key], size));
    var done := OnReply(u, r);
    AnswerTaken(u, r);
    TellingTick(done, now);
    Answered(w, j, key, size, u);
    hide Act, OwnsKey, Tick, Callbacks, RunWorld, Requested, Truncate, NextVersion;
    var answered := Act(w, DeviceRead(key, size));
    OwnReply(answered, j, key, size, u, r);
    OwnTick(Act(answered, Host(Deliver(r))), j, now, key, size, done);
    RunThree(w, DeviceRead(key, size), Host(Deliver(r)), Host(TickUnit(j, now)));
  }

  function WholeRead(j: nat, timeout: int, checked: bool, key: Key, size: Size, held: nat,
    t1: int, t2: int, times: seq<int>, t3: int): seq<Action>
  {
    [Host(ReadCall(j, timeout, checked)), Host(TickUnit(j, t1)), Host(TickUnit(j, t2))]
    + LostReads(j, key, times) + ReadAnswered(j, key, size, held, t3)
  }

  /**
   However often its request is lost before the deadline, a read that is then answered leaves what the register
   holds in the unit, is told success if it was a checked one, once, has written nothing, and leaves the unit idle.
   */
  lemma ReadGetsThrough(w: World, j: nat, timeout: int, checked: bool, key: Key, size: Size,
    t1: int, t2: int, times: seq<int>, t3: int)
    requires Owns(w.host, j, key, size) && Idle(w.host.units[j]) && key in w.registers
    requires t2 < Deadline(t1, timeout) && t3 < Deadline(t1, timeout) && AllBefore(times, Deadline(t1, timeout))
    ensures var t := RunWorld(w, WholeRead(j, timeout, checked, key, size, w.registers[key], t1, t2, times, t3));
      && Owns(t.host, j, key, size) && Idle(t.host.units[j])
      && t.host.units[j].value == Truncate(w.registers[key], size)
      && t.host.units[j].version == NextVersion(w.host.units[j].version)
      && t.registers == w.registers && t.toDevice == w.toDevice + {Read(key)}
      && t.host.log == w.host.log + if checked then [Completion(w.host.accepted, true)] else []
  {
    var u := Armed(w.host.units[j], READ, READING, w.host.units[j].value, Deadline(t1, timeout),
                   CallbackOf(w.host, checked));
    var start := [Host(ReadCall(j, timeout, checked)), Host(TickUnit(j, t1)), Host(TickUnit(j, t2))];
    var lost := LostReads(j, key, times);
    ReadIsSent(w, j, timeout, checked, t1, t2, key, size);
    hide Act, Owns, Deadline, Truncate, RunWorld, LostReads, ReadAnswered, ReadCall, NextVersion;
    var sent := RunWorld(w, start);
    assert sent.registers == w.registers && sent.host.log == w.host.log && sent.toDevice == w.toDevice + {Read(key)};
    hide Adds;
    ReadLostAnyNumberOfTimes(sent, j, key, size, u, times);
    ReadTold(RunWorld(sent, lost), j, key, size, u, t3);
    RunWorldAppend(w, start, lost);
    RunWorldAppend(w, start + lost, ReadAnswered(j, key, size, w.registers[key], t3));
  }

  // ---------------------------------------------------------------- masked units

  /**
   Any call on an idle masked unit is over with the next tick: nothing is sent, the register is left alone, and a
   checked one is told success, and failure on top of that exactly when its raw timeout is not above the clock.
   */
  lemma MaskedEndsAtOnce(w: World, j: nat, data: nat, timeout: int, write: bool, checked: bool, now: int)
    requires j < |w.host.units| && Masked(w.host.units[j]) && Idle(w.host.units[j])
    ensures var call := Host(if write then WriteCall(j, data, timeout, checked) else ReadCall(j, timeout, checked));
      var t := RunWorld(w, [call, Host(TickUnit(j, now))]);
      && t.registers == w.registers && t.toDevice == w.toDevice && t.toHost == w.toHost
      && j < |t.host.units| && Idle(t.host.units[j])
      && t.host.units[j].value == (if write then data else w.host.units[j].value)
      && t.host.log == w.host.log
         + if !checked then [] else if timeout <= now then Both(w.host.accepted)
           else [Completion(w.host.accepted, true)]
  {
    var e := if write then WriteCall(j, data, timeout, checked) else ReadCall(j, timeout, checked);
    var called := Act(w, Host(e));
    var u := called.host.units[j];
    MaskedCalled(w, j, data, timeout, write, checked);
    MaskedTick(u, now);
    hide WriteCall, ReadCall, RunWorld, Tick, Callbacks;
    TickedUnit(called.host, j, now);
    RunThree(w, Host(e), Host(TickUnit(j, now)), Host(TickUnit(j, now)));
  }

  function Both(k: nat): seq<Completion> {
    [Completion(k, true), Completion(k, false)]
  }

  lemma MaskedCalled(w: World, j: nat, data: nat, timeout: int, write: bool, checked: bool)
    requires j < |w.host.units| && Masked(w.host.units[j]) && Idle(w.host.units[j])
    ensures var u := w.host.units[j];
      var e := if write then WriteCall(j, data, timeout, checked) else ReadCall(j, timeout, checked);
      var t := Act(w, Host(e));
      && t.registers == w.registers && t.toDevice == w.toDevice && t.toHost == w.toHost && t.host.log == w.host.log
      && |t.host.units| == |w.host.units|
      && t.host.units[j] == Armed(u, if write then WRITE else READ, WAITING, if write then data else u.value,
                                  timeout, CallbackOf(w.host, checked))
  {
  }

  lemma MaskedTick(u: StorageUnit, now: int)
    requires Masked(u) && !Idle(u)
    ensures Idle(Tick(u, now).unit) && Tick(u, now).unit.value == u.value && Requested(u, now) == {}
    ensures Callbacks(u, now) == if u.callback.None? then [] else if u.timer <= now then Both(u.callback.value)
                                 else [Completion(u.callback.value, true)]
  {
    hide Truncate, Deadline;
  }
}
