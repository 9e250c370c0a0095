/** Checked reads end to end: exactly when success means a value the device register has held since. */
module CheckedReads {
  import opened Common
  import opened Wire
  import opened StorageUnits
  import opened Completions
  import opened Worlds

  ghost predicate ReadTraffic(w: World, key: Key, size: Size, held: set<nat>) {
    && (forall r :: r in w.toDevice && r.key == key && r.Write? ==> r.value < Limit(Width(size)))
    && (forall r :: r in w.toHost && r.key == key && r.ReadSuccess? ==> r.size == size && r.value in held)
  }

  predicate ReadingUnit(u: StorageUnit, held: set<nat>) {
    && u.operation.mode == READ && u.operation.state !in {WRITING, WRITING_CONFIRMING}
    && (u.operation.state == SUCCESS ==> u.value in held)
  }

  /** `held` contains every value the register has had since the read was accepted. */
  ghost predicate Reading(w: World, j: nat, key: Key, size: Size, held: set<nat>, k: nat) {
    && Inv(w.host) && Owns(w.host, j, key, size) && RegisterFits(w, key, size)
    && w.registers[key] in held
    && ReadTraffic(w, key, size, held)
    && Holds(w.host.units[j], k)
    && ReadingUnit(w.host.units[j], held)
  }

  lemma HeldGrows(w: World, j: nat, key: Key, size: Size, held: set<nat>, x: nat, k: nat)
    requires Reading(w, j, key, size, held, k)
    ensures Reading(w, j, key, size, held + {x}, k)
  {
    hide Inv, OwnsKey, Limit, Holds;
  }

  lemma DeviceKeepsReading(w: World, a: Action, j: nat, key: Key, size: Size, held: set<nat>, k: nat)
    requires Reading(w, j, key, size, held, k) && !a.Host?
    requires Permitted(w, a, j, key, size, None) && Sized(a, key, size)
    requires key in Act(w, a).registers ==> Act(w, a).registers[key] in held
    ensures Reading(Act(w, a), j, key, size, held, k)
  {
    hide Inv, OwnsKey, Holds, ReadingUnit, Limit;
    assert Act(w, a).host == w.host;
    if a.DeviceRead? && a.key == key { TruncateFits(w.registers[key], size); }
  }

  lemma DeliverKeepsReading(w: World, r: Reply, j: nat, key: Key, size: Size, held: set<nat>, k: nat)
    requires Reading(w, j, key, size, held, k) && r in w.toHost
    ensures Reading(Act(w, Host(Deliver(r))), j, key, size, held, k)
  {
    var w' := Act(w, Host(Deliver(r)));
    StepKeepsInv(w.host, Deliver(r));
    StepKeepsOwner(w.host, Deliver(r), j, key, size);
    DeliverToOwner(w.host, r, j, key, size);
    ReadingReply(w.host.units[j], r, held, k);
    assert w'.toDevice == w.toDevice && w'.toHost == w.toHost && w'.registers == w.registers;
    hide Step, Inv, OwnsKey, OnReply, Limit, Holds, ReadingUnit;
  }

  lemma ReadingReply(u: StorageUnit, r: Reply, held: set<nat>, k: nat)
    requires ReadingUnit(u, held) && Holds(u, k)
    ensures (r.ReadSuccess? ==> r.value in held) ==> ReadingUnit(OnReply(u, r), held) && Holds(OnReply(u, r), k)
  {
    hide Truncate;
  }

  lemma ReadingTick(u: StorageUnit, now: int, held: set<nat>, k: nat)
    requires ReadingUnit(u, held) && Holds(u, k) && !Masked(u)
    ensures var t := Tick(u, now);
      && (t.verdicts == [] ==> ReadingUnit(t.unit, held) && Holds(t.unit, k) && t.unit.operation.state != WRITING)
      && (true in t.verdicts ==> u.value in held)
  {
    hide Truncate;
  }

  lemma TickKeepsReading(w: World, now: int, j: nat, key: Key, size: Size, held: set<nat>, k: nat)
    requires Reading(w, j, key, size, held, k)
    ensures var a := Host(TickUnit(j, now));
      && (Reading(Act(w, a), j, key, size, held, k) || Gone(Act(w, a), k))
      && (Tells(w, a, k, true) ==> w.host.units[j].value in held)
  {
    var e, u := TickUnit(j, now), w.host.units[j];
    StepKeepsInv(w.host, e);
    ReadingTick(u, now, held, k);
    if Tick(u, now).verdicts != [] {
      EndingStep(w.host, j, now, k);
      HolderIsAccepted(w.host, j, k);
      AcceptedGrows(w.host, e);
      hide Step, Inv, Tick, Pending;
    } else {
      StepKeepsOwner(w.host, e, j, key, size);
      SentByOwner(w.host, e, j, key, size);
      TickedUnit(w.host, j, now);
      hide Step, Inv, OwnsKey, Tick, Sent, Limit, Truncate;
    }
  }

  lemma OthersKeepReading(w: World, e: Event, j: nat, key: Key, size: Size, held: set<nat>, k: nat)
    requires Reading(w, j, key, size, held, k) && !e.Deliver? && !(e.TickUnit? && e.id == j)
    requires !(e.CallWriteUnchecked? && e.id == j) && KeepsOff(w.host, e, j, key)
    ensures Reading(Act(w, Host(e)), j, key, size, held, k) && !Tells(w, Host(e), k, true)
  {
    StepKeepsInv(w.host, e);
    StepKeepsOwner(w.host, e, j, key, size);
    SentByOwner(w.host, e, j, key, size);
    BusyUnitUntouched(w.host, e, j, k);
    NotTheHolder(w, e, j, k);
    hide Step, Inv, OwnsKey, Sent, Limit, Truncate, ReadingUnit;
  }

  lemma ReadingStep(w: World, a: Action, j: nat, key: Key, size: Size, held: set<nat>, k: nat)
    requires Reading(w, j, key, size, held, k)
    requires Permitted(w, a, j, key, size, None) && Sized(a, key, size)
    requires key in Act(w, a).registers ==> Act(w, a).registers[key] in held
    ensures Reading(Act(w, a), j, key, size, held, k) || Gone(Act(w, a), k)
    ensures Tells(w, a, k, true) ==> w.host.units[j].value in held
  {
    hide Act, Gone, Limit;
    if !a.Host? {
      DeviceKeepsReading(w, a, j, key, size, held, k);
    } else if a.event.Deliver? {
      if a.event.reply in w.toHost {
        DeliverKeepsReading(w, a.event.reply, j, key, size, held, k);
        assert a == Host(Deliver(a.event.reply));
      } else {
        UndeliveredIsNothing(w, a.event);
      }
    } else if a.event.TickUnit? && a.event.id == j {
      TickKeepsReading(w, a.event.now, j, key, size, held, k);
      assert a == Host(TickUnit(j, a.event.now));
    } else {
      assert !Idle(w.host.units[j]);
      OthersKeepReading(w, a.event, j, key, size, held, k);
      assert a == Host(a.event);
    }
  }

  lemma ReadingOwns(w: World, j: nat, key: Key, size: Size, held: set<nat>, k: nat)
    ensures Reading(w, j, key, size, held, k) ==> j < |w.host.units|
  {
  }

  lemma ReadingTells(w: World, a: Action, j: nat, key: Key, size: Size, held: set<nat>, k: nat)
    requires Reading(w, j, key, size, held, k)
    requires Permitted(w, a, j, key, size, None) && Sized(a, key, size)
    ensures Tells(w, a, k, true) ==> w.host.units[j].value in held
  {
    if a.Host? {
      assert Act(w, a).registers == w.registers;
      hide Act, Limit;
      ReadingStep(w, a, j, key, size, held, k);
    }
  }

  // ---------------------------------------------------------------- theorem

  function Register(w: World, key: Key): nat {
    if key in w.registers then w.registers[key] else 0
  }

  /** The values of the register from the start of a run to its end. */
  function Held(w: World, actions: seq<Action>, key: Key): (held: set<nat>)
    ensures Register(RunWorld(w, actions), key) in held
  {
    if actions == [] then {Register(w, key)}
    else Held(w, actions[..|actions| - 1], key) + {Register(RunWorld(w, actions), key)}
  }

  lemma HeldOneMore(w: World, actions: seq<Action>, a: Action, key: Key)
    ensures Held(w, actions + [a], key) == Held(w, actions, key) + {Register(Act(RunWorld(w, actions), a), key)}
  {
    hide Act;
    OneMoreAction(w, actions, a);
    assert (actions + [a])[..|actions|] == actions;
  }

  lemma {:induction false} HeldAtSomeTime(w: World, actions: seq<Action>, key: Key, x: nat) returns (t: nat)
    requires x in Held(w, actions, key)
    ensures t <= |actions| && Register(RunWorld(w, actions[..t]), key) == x
  {
    if x == Register(RunWorld(w, actions), key) {
      t := |actions|;
      assert actions[..t] == actions;
    } else {
      t := HeldAtSomeTime(w, actions[..|actions| - 1], key, x);
      assert actions[..|actions| - 1][..t] == actions[..t];
    }
  }

  lemma {:induction false} RunKeepsReading(w: World, actions: seq<Action>, j: nat, key: Key, size: Size, k: nat)
    requires Reading(w, j, key, size, {Register(w, key)}, k)
    requires AllPermitted(w, actions, j, key, size, None) && forall a :: a in actions ==> Sized(a, key, size)
    ensures Reading(RunWorld(w, actions), j, key, size, Held(w, actions, key), k) || Gone(RunWorld(w, actions), k)
  {
    hide Reading, Gone, Act, Limit, Permitted, Sized;
    if actions != [] {
      var before, a := actions[..|actions| - 1], actions[|actions| - 1];
      PermittedPrefix(w, actions, |actions| - 1, j, key, size, None);
      RunKeepsReading(w, before, j, key, size, k);
      var at := RunWorld(w, before);
      if Reading(at, j, key, size, Held(w, before, key), k) {
        HeldGrows(at, j, key, size, Held(w, before, key), Register(Act(at, a), key), k);
        ReadingStep(at, a, j, key, size, Held(w, actions, key), k);
      } else {
        GoneStaysGone(at, a, k);
      }
    }
  }

  /** The runs the promise is about. */
  ghost predicate Permissible(w: World, actions: seq<Action>, j: nat, key: Key, size: Size) {
    && AllPermitted(w, actions, j, key, size, None) && SteadyClock(actions)
    && forall a :: a in actions ==> Sized(a, key, size)
  }

  function Accepted(w: World, j: nat, timeout: int): World {
    Act(w, Host(CallRead(j, timeout)))
  }

  /** Every answer in flight for the key says what the register holds. */
  ghost predicate Current(w: World, key: Key) {
    forall r :: r in w.toHost && r.key == key && r.ReadSuccess? ==> r.value == Register(w, key)
  }

  predicate HasValueIn(w: World, j: nat, held: set<nat>) {
    j < |w.host.units| && w.host.units[j].value in held
  }

  /** Before and after the i-th action the unit's value is one the register has had since the start of the run. */
  ghost predicate HeldSince(start: World, actions: seq<Action>, i: nat, j: nat, key: Key)
    requires i < |actions|
  {
    var at, held := RunWorld(start, actions[..i]), Held(start, actions[..i], key);
    HasValueIn(at, j, held) && HasValueIn(Act(at, actions[i]), j, held)
  }

  /**
   On every permissible run: whenever the read is told success, its unit holds a value of the register since, and
   still does after the tick that told it.
   */
  ghost predicate SuccessMeansRead(w: World, j: nat, timeout: int, key: Key, size: Size) {
    forall actions, i ::
      0 <= i < |actions| && Permissible(Accepted(w, j, timeout), actions, j, key, size)
      && Tells(RunWorld(Accepted(w, j, timeout), actions[..i]), actions[i], w.host.accepted, true) ==>
        HeldSince(Accepted(w, j, timeout), actions, i, j, key)
  }

  lemma AcceptedRead(w: World, j: nat, timeout: int, key: Key, size: Size)
    requires Inv(w.host) && Owns(w.host, j, key, size) && Idle(w.host.units[j])
    requires RegisterFits(w, key, size) && Declared(w, key, size) && Current(w, key)
    ensures var start := Accepted(w, j, timeout);
      Reading(start, j, key, size, {Register(start, key)}, w.host.accepted)
  {
    var e := CallRead(j, timeout);
    StepKeepsInv(w.host, e);
    StepKeepsOwner(w.host, e, j, key, size);
    hide Inv, OwnsKey, Limit, Truncate;
  }

  /**
   A checked read whose callback reports success has left in the unit a value the device register really had
   at some moment between the acceptance and the callback, and the tick that makes the callback leaves it there.
   */
  lemma ReadSafety(w: World, j: nat, timeout: int, key: Key, size: Size, actions: seq<Action>, i: nat)
    requires Inv(w.host) && Owns(w.host, j, key, size) && Idle(w.host.units[j])
    requires RegisterFits(w, key, size) && Declared(w, key, size) && Current(w, key)
    requires Permissible(Accepted(w, j, timeout), actions, j, key, size) && i < |actions|
    ensures Tells(RunWorld(Accepted(w, j, timeout), actions[..i]), actions[i], w.host.accepted, true) ==>
      HeldSince(Accepted(w, j, timeout), actions, i, j, key)
  {
    var start, k := Accepted(w, j, timeout), w.host.accepted;
    AcceptedRead(w, j, timeout, key, size);
    PermittedPrefix(start, actions, i, j, key, size, None);
    RunKeepsReading(start, actions[..i], j, key, size, k);
    var at, held := RunWorld(start, actions[..i]), Held(start, actions[..i], key);
    ReadingOwns(at, j, key, size, held, k);
    hide Act, RunWorld, Permitted, Sized, Tells, Gone, Inv, Limit, Truncate, Reading, Held, AllPermitted, Accepted;
    if Reading(at, j, key, size, held, k) {
      ReadingTells(at, actions[i], j, key, size, held, k);
      if Tells(at, actions[i], k, true) { TellingKeepsValue(at, actions[i], j, k, true); }
    } else {
      GoneStaysGone(at, actions[i], k);
    }
  }

  // ---------------------------------------------------------------- the other half

  /** An old answer in flight is taken for the new one. */
  lemma StaleAnswer(w: World, j: nat, timeout: int, key: Key, size: Size, r: Reply)
    requires Owns(w.host, j, key, size) && Idle(w.host.units[j])
    requires r in w.toHost && r.key == key && r.ReadSuccess? && r.value != Register(w, key)
    ensures !SuccessMeansRead(w, j, timeout, key, size)
  {
    var start, tick, answer := Accepted(w, j, timeout), Host(TickUnit(j, 0)), Host(Deliver(r));
    var actions := [tick, answer, tick];
    PlainRun(start, j, key, size, tick, answer);
    StaleRun(w, j, timeout, key, size, r);
    assert actions[..2] == [tick, answer] && actions[2] == tick;
    hide Act, RunWorld, Accepted, Tells, Permissible, Held;
    assert Tells(RunWorld(start, actions[..2]), actions[2], w.host.accepted, true);
    assert !HeldSince(start, actions, 2, j, key);
  }

  lemma PlainRun(w: World, j: nat, key: Key, size: Size, tick: Action, answer: Action)
    requires tick == Host(TickUnit(j, 0)) && answer.Host? && answer.event.Deliver?
    ensures Permissible(w, [tick, answer, tick], j, key, size)
  {
    hide RunWorld;
  }

  lemma StaleRun(w: World, j: nat, timeout: int, key: Key, size: Size, r: Reply)
    requires Owns(w.host, j, key, size) && Idle(w.host.units[j])
    requires r in w.toHost && r.key == key && r.ReadSuccess? && r.value != Register(w, key)
    ensures var start, tick, answer := Accepted(w, j, timeout), Host(TickUnit(j, 0)), Host(Deliver(r));
      var at := RunWorld(start, [tick, answer]);
      && Tells(at, tick, w.host.accepted, true) && j < |at.host.units| && at.host.units[j].value == r.value
      && r.value !in Held(start, [tick, answer], key)
  {
    var start, tick, answer := Accepted(w, j, timeout), Host(TickUnit(j, 0)), Host(Deliver(r));
    var armed := Act(start, tick);
    ArmedRead(w, j, timeout, key, size);
    AnswerTaken(armed, j, key, size, r, w.host.accepted);
    hide Act, Accepted, Tells, Owns;
    var none: seq<Action> := [];
    assert RunWorld(start, none) == start && Held(start, none, key) == {Register(w, key)};
    hide RunWorld, Held;
    assert none + [tick] == [tick] && [tick] + [answer] == [tick, answer];
    OneMoreAction(start, none, tick);
    OneMoreAction(start, [tick], answer);
    HeldOneMore(start, none, tick, key);
    HeldOneMore(start, [tick], answer, key);
  }

  lemma ArmedRead(w: World, j: nat, timeout: int, key: Key, size: Size)
    requires Owns(w.host, j, key, size) && Idle(w.host.units[j])
    ensures Accepted(w, j, timeout).registers == w.registers
    ensures var t := Act(Accepted(w, j, timeout), Host(TickUnit(j, 0)));
      && t.registers == w.registers && t.toHost == w.toHost
      && j < |t.host.units| && Owns(t.host, j, key, size) && Holds(t.host.units[j], w.host.accepted)
      && t.host.units[j].operation == Operation(READ, READING) && t.host.units[j].timer == Deadline(0, timeout)
  {
    var start := Accepted(w, j, timeout);
    StepKeepsOwner(w.host, CallRead(j, timeout), j, key, size);
    StepKeepsOwner(start.host, TickUnit(j, 0), j, key, size);
    hide OwnsKey, Deadline, Truncate;
  }

  lemma AnswerTaken(w: World, j: nat, key: Key, size: Size, r: Reply, k: nat)
    requires Owns(w.host, j, key, size) && Holds(w.host.units[j], k)
      && w.host.units[j].operation == Operation(READ, READING)
    requires r in w.toHost && r.key == key && r.ReadSuccess?
    ensures var t := Act(w, Host(Deliver(r)));
      && t.registers == w.registers && j < |t.host.units| && t.host.units[j].value == r.value
      && Holds(t.host.units[j], k) && Succeeds(t.host.units[j]) && Tells(t, Host(TickUnit(j, 0)), k, true)
  {
    DeliverToOwner(w.host, r, j, key, size);
    hide Step, OwnsKey;
    assert [true][0] && [true, false][0];
  }

  /**
   The exact condition, for the only unit at work with its key, unmasked: success means a value of the register
   since the acceptance, on every run, exactly when the answers in flight for the key at acceptance are current.
   */
  lemma ReadSafetyExactly(w: World, j: nat, timeout: int, key: Key, size: Size)
    requires Inv(w.host) && Owns(w.host, j, key, size) && Idle(w.host.units[j])
    requires RegisterFits(w, key, size) && Declared(w, key, size)
    ensures SuccessMeansRead(w, j, timeout, key, size) <==> Current(w, key)
  {
    if Current(w, key) {
      CurrentKeepsPromise(w, j, timeout, key, size);
    } else {
      hide Owns, SuccessMeansRead, Inv;
      var r :| r in w.toHost && r.key == key && r.ReadSuccess? && r.value != Register(w, key);
      StaleAnswer(w, j, timeout, key, size, r);
    }
  }

  lemma CurrentKeepsPromise(w: World, j: nat, timeout: int, key: Key, size: Size)
    requires Inv(w.host) && Owns(w.host, j, key, size) && Idle(w.host.units[j])
    requires RegisterFits(w, key, size) && Declared(w, key, size) && Current(w, key)
    ensures SuccessMeansRead(w, j, timeout, key, size)
  {
    hide Inv, Owns, RegisterFits, Declared, Current, Permissible, Tells, HeldSince, RunWorld, Accepted;
    forall actions: seq<Action>, i: nat | i < |actions| && Permissible(Accepted(w, j, timeout), actions, j, key, size)
      && Tells(RunWorld(Accepted(w, j, timeout), actions[..i]), actions[i], w.host.accepted, true)
      ensures HeldSince(Accepted(w, j, timeout), actions, i, j, key)
    {
      ReadSafety(w, j, timeout, key, size, actions, i);
    }
  }

  // ---------------------------------------------------------------- why the runs are those

  /** Only writes and drift move a register. */
  lemma {:induction false} HeldStill(w: World, actions: seq<Action>, key: Key)
    requires forall a :: a in actions ==> a.Host? || a.DeviceRead?
    ensures Held(w, actions, key) == {Register(w, key)} && RunWorld(w, actions).registers == w.registers
  {
    hide Step, Sent;
    if actions != [] { HeldStill(w, actions[..|actions| - 1], key); }
  }

  /**
   Why an unchecked write must wait: made after the answer has come and before the tick has told it, it leaves its
   own value in the unit, which the read then reports as read.
   */
  lemma UncheckedOverwrites(w: World, j: nat, timeout: int, x: nat, key: Key, size: Size)
    requires Owns(w.host, j, key, size) && Idle(w.host.units[j]) && timeout != 0
    requires key in w.registers && x != w.registers[key]
    ensures var start, tick := Accepted(w, j, timeout), Host(TickUnit(j, 0));
      var answer := ReadSuccess(key, size, Truncate(w.registers[key], size));
      var overwrite := Host(CallWriteUnchecked(j, x, timeout));
      var actions := [tick, tick, DeviceRead(key, size), Host(Deliver(answer)), overwrite];
      var at := RunWorld(start, actions);
      && Tells(at, tick, w.host.accepted, true)
      && j < |at.host.units| && at.host.units[j].value == x && x !in Held(start, actions, key)
  {
    hide Act, Accepted, Tells, Owns, Held, Truncate, RunWorld, Succeeds, Register;
    var start, tick, k := Accepted(w, j, timeout), Host(TickUnit(j, 0)), w.host.accepted;
    var answer := ReadSuccess(key, size, Truncate(w.registers[key], size));
    var overwrite := Host(CallWriteUnchecked(j, x, timeout));
    ArmedRead(w, j, timeout, key, size);
    AskedRead(Act(start, tick), j, key, size, k);
    var asked := Act(Act(start, tick), tick);
    DeviceAnswers(asked, key, size);
    var answered := Act(asked, DeviceRead(key, size));
    AnswerTaken(answered, j, key, size, answer, k);
    Overwritten(Act(answered, Host(Deliver(answer))), j, x, timeout, k);
    HeldStill(start, [tick, tick, DeviceRead(key, size), Host(Deliver(answer)), overwrite], key);
    RegisterIs(w, start, key);
    RunFive(start, tick, tick, DeviceRead(key, size), Host(Deliver(answer)), overwrite);
  }

  lemma RegisterIs(w: World, t: World, key: Key)
    requires t.registers == w.registers && key in w.registers
    ensures Register(t, key) == w.registers[key]
  {
  }

  lemma DeviceAnswers(w: World, key: Key, size: Size)
    requires Read(key) in w.toDevice && key in w.registers
    ensures var t := Act(w, DeviceRead(key, size));
      && t.host == w.host && t.registers == w.registers
      && ReadSuccess(key, size, Truncate(w.registers[key], size)) in t.toHost
  {
    hide Truncate;
  }

  lemma AskedRead(w: World, j: nat, key: Key, size: Size, k: nat)
    requires Owns(w.host, j, key, size) && Holds(w.host.units[j], k)
    requires w.host.units[j].operation == Operation(READ, READING) && w.host.units[j].timer > 0
    ensures var t := Act(w, Host(TickUnit(j, 0)));
      && t.registers == w.registers && Read(key) in t.toDevice
      && j < |t.host.units| && Owns(t.host, j, key, size) && t.host.units[j] == w.host.units[j]
  {
    StepKeepsOwner(w.host, TickUnit(j, 0), j, key, size);
    hide OwnsKey, Truncate;
  }

  lemma Overwritten(w: World, j: nat, x: nat, timeout: int, k: nat)
    requires j < |w.host.units| && Holds(w.host.units[j], k) && Succeeds(w.host.units[j])
    ensures var t := Act(w, Host(CallWriteUnchecked(j, x, timeout)));
      j < |t.host.units| && t.host.units[j].value == x && Tells(t, Host(TickUnit(j, 0)), k, true)
  {
    OnlyValueChanged(w.host, CallWriteUnchecked(j, x, timeout), j, k);
    hide Step;
    assert [true][0] && [true, false][0];
  }
}
