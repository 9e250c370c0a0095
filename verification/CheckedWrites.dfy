/** Checked writes end to end: exactly when success means that the device register holds the value. */
module CheckedWrites {
  import opened Common
  import opened Wire
  import opened StorageUnits
  import opened Completions
  import opened Worlds
  import Deadlines

  /**
   Every message with the key on either channel fits a single write of `v`. Without a timeout (`c` is false) the
   write never comes to confirm by reading, so what a read answers does not matter.
   */
  ghost predicate WriteTraffic(w: World, key: Key, size: Size, v: nat, c: bool)
    requires key in w.registers
  {
    && (forall r :: r in w.toDevice && r.key == key && r.Write? ==> r.value == v)
    && (forall r :: r in w.toHost && r.key == key && Witnesses(r, v, c) ==> w.registers[key] == v)
    && (forall r :: r in w.toHost && r.key == key && r.ReadSuccess? ==> r.size == size)
  }

  /** A reply from which the host would conclude that `v` has been written. */
  predicate Witnesses(r: Reply, v: nat, c: bool) {
    r.WriteSuccess? || (c && r.ReadSuccess? && r.value == v)
  }

  ghost predicate Writing(w: World, j: nat, key: Key, size: Size, v: nat, c: bool, k: nat) {
    && Inv(w.host) && Owns(w.host, j, key, size) && RegisterFits(w, key, size)
    && WriteTraffic(w, key, size, v, c)
    && Holds(w.host.units[j], k)
    && WritingUnit(w.host.units[j], size, v, c)
    && (w.host.units[j].operation.state == SUCCESS ==> w.registers[key] == v)
  }

  predicate WritingUnit(u: StorageUnit, size: Size, v: nat, c: bool) {
    && u.operation.mode == WRITE && u.operation.state != READING
    && (!c ==> u.operation.state != WRITING_CONFIRMING && (u.operation.state == WAITING ==> u.timer == 0))
    && Truncate(u.value, size) == v
  }

  /** Without a timeout the deadline has come by every tick from `i` on. */
  ghost predicate DueBy(u: StorageUnit, actions: seq<Action>, i: nat) {
    u.operation.state == WRITING ==>
      forall q :: i <= q < |actions| && Ticks(actions[q]) ==> u.timer <= actions[q].event.now
  }

  lemma DeviceKeepsWriting(w: World, a: Action, j: nat, key: Key, size: Size, v: nat, c: bool, k: nat)
    requires Writing(w, j, key, size, v, c, k) && !a.Host?
    requires Permitted(w, a, j, key, size, Some(v)) && Steady(a, key)
    requires v < Limit(Width(size))
    ensures Writing(Act(w, a), j, key, size, v, c, k)
  {
    assert Act(w, a).host == w.host;
    hide Inv, Owns, Holds, WritingUnit, Permitted, Limit, Truncate;
    DeviceKeepsTraffic(w, a, j, key, size, v, c);
  }

  lemma DeviceKeepsTraffic(w: World, a: Action, j: nat, key: Key, size: Size, v: nat, c: bool)
    requires RegisterFits(w, key, size) && WriteTraffic(w, key, size, v, c) && !a.Host?
    requires Permitted(w, a, j, key, size, Some(v)) && Steady(a, key) && v < Limit(Width(size))
    ensures RegisterFits(Act(w, a), key, size) && WriteTraffic(Act(w, a), key, size, v, c)
    ensures w.registers[key] == v ==> Act(w, a).registers[key] == v
  {
    hide Limit, Truncate;
    if a.DeviceRead? && a.key == key { TruncateFits(w.registers[key], size); }
  }

  /** A reply the host takes for a confirmation arrives only when the register holds `v`. */
  lemma DeliverKeepsWriting(w: World, r: Reply, j: nat, key: Key, size: Size, v: nat, c: bool, k: nat)
    requires Writing(w, j, key, size, v, c, k) && r in w.toHost
    ensures Writing(Act(w, Host(Deliver(r))), j, key, size, v, c, k)
  {
    var w' := Act(w, Host(Deliver(r)));
    var u, u' := w.host.units[j], w'.host.units[j];
    StepKeepsInv(w.host, Deliver(r));
    StepKeepsOwner(w.host, Deliver(r), j, key, size);
    DeliverToOwner(w.host, r, j, key, size);
    assert w'.toDevice == w.toDevice && w'.toHost == w.toHost && w'.registers == w.registers;
    if u' != u {
      ConfirmingReply(u, r, size, v, c);
    }
    hide Step, Inv, OwnsKey, OnReply, Limit;
  }

  lemma ConfirmingReply(u: StorageUnit, r: Reply, size: Size, v: nat, c: bool)
    requires WritingUnit(u, size, v, c) && (r.ReadSuccess? ==> r.size == size)
    ensures var u' := OnReply(u, r);
      && WritingUnit(u', size, v, c) && u'.callback == u.callback
      && (u'.operation.state == SUCCESS && u.operation.state != SUCCESS ==> Witnesses(r, v, c))
  {
    hide Truncate;
  }

  /** The owner's own tick: it goes on, or it ends and the verdict is true only with the register at `v`. */
  lemma TickKeepsWriting(w: World, now: int, j: nat, key: Key, size: Size, v: nat, c: bool, k: nat)
    requires Writing(w, j, key, size, v, c, k)
    requires !c && w.host.units[j].operation.state == WRITING ==> w.host.units[j].timer <= now
    ensures var a := Host(TickUnit(j, now));
      && (Writing(Act(w, a), j, key, size, v, c, k) || Gone(Act(w, a), k))
      && (Tells(w, a, k, true) ==> w.registers[key] == v)
  {
    var e := TickUnit(j, now);
    var w', u := Act(w, Host(e)), w.host.units[j];
    StepKeepsInv(w.host, e);
    if Tick(u, now).verdicts != [] {
      EndingStep(w.host, j, now, k);
      HolderIsAccepted(w.host, j, k);
      AcceptedGrows(w.host, e);
      VerdictTrue(u, now);
      hide Step, Inv, Tick, Pending;
    } else {
      StepKeepsOwner(w.host, e, j, key, size);
      SentByOwner(w.host, e, j, key, size);
      WritingTick(u, now, size, v, c, k);
      TickedUnit(w.host, j, now);
      hide Step, Inv, OwnsKey, Tick, Sent, Limit, Truncate;
    }
  }

  lemma WritingTick(u: StorageUnit, now: int, size: Size, v: nat, c: bool, k: nat)
    requires WritingUnit(u, size, v, c) && Holds(u, k) && Tick(u, now).verdicts == []
    requires !c && u.operation.state == WRITING ==> u.timer <= now
    ensures var u' := Tick(u, now).unit;
      WritingUnit(u', size, v, c) && Holds(u', k) && u'.operation.state != SUCCESS
  {
    hide Truncate;
  }

  /** What other units and rejected calls do leaves the write alone. */
  lemma OthersKeepWriting(w: World, e: Event, j: nat, key: Key, size: Size, v: nat, c: bool, k: nat)
    requires Writing(w, j, key, size, v, c, k) && !e.Deliver? && !(e.TickUnit? && e.id == j)
    requires !(e.CallWriteUnchecked? && e.id == j) && KeepsOff(w.host, e, j, key)
    ensures Writing(Act(w, Host(e)), j, key, size, v, c, k) && !Tells(w, Host(e), k, true)
  {
    StepKeepsInv(w.host, e);
    StepKeepsOwner(w.host, e, j, key, size);
    SentByOwner(w.host, e, j, key, size);
    BusyUnitUntouched(w.host, e, j, k);
    NotTheHolder(w, e, j, k);
    hide Step, Inv, OwnsKey, Sent, Limit, Truncate;
  }

  /** An unchecked write of the same value, in the middle of the operation, does not disturb it. */
  lemma SameValueKeepsWriting(w: World, e: Event, j: nat, key: Key, size: Size, v: nat, c: bool, k: nat)
    requires Writing(w, j, key, size, v, c, k) && e.CallWriteUnchecked? && e.id == j && Keeps(e, size, Some(v))
    ensures Writing(Act(w, Host(e)), j, key, size, v, c, k) && !Tells(w, Host(e), k, true)
  {
    StepKeepsInv(w.host, e);
    StepKeepsOwner(w.host, e, j, key, size);
    OnlyValueChanged(w.host, e, j, k);
    hide Step, Inv, OwnsKey, Limit, Truncate;
  }

  /** Without a timeout the action is not a tick of the unit that comes before its deadline. */
  predicate Due(u: StorageUnit, a: Action, j: nat, c: bool) {
    !c && Ticks(a) && a.event.id == j && u.operation.state == WRITING ==> u.timer <= a.event.now
  }

  lemma WritingStep(w: World, a: Action, j: nat, key: Key, size: Size, v: nat, c: bool, k: nat)
    requires Writing(w, j, key, size, v, c, k) && Due(w.host.units[j], a, j, c)
    requires Permitted(w, a, j, key, size, Some(v)) && Steady(a, key) && v < Limit(Width(size))
    ensures Writing(Act(w, a), j, key, size, v, c, k) || Gone(Act(w, a), k)
    ensures Tells(w, a, k, true) ==> w.registers[key] == v
  {
    hide Act, Gone, Limit;
    if !a.Host? {
      DeviceKeepsWriting(w, a, j, key, size, v, c, k);
    } else if a.event.Deliver? {
      if a.event.reply in w.toHost {
        DeliverKeepsWriting(w, a.event.reply, j, key, size, v, c, k);
        assert a == Host(Deliver(a.event.reply));
      } else {
        UndeliveredIsNothing(w, a.event);
      }
    } else if a.event.TickUnit? && a.event.id == j {
      TickKeepsWriting(w, a.event.now, j, key, size, v, c, k);
      assert a == Host(TickUnit(j, a.event.now));
    } else {
      assert a == Host(a.event) && !Idle(w.host.units[j]);
      if a.event.CallWriteUnchecked? && a.event.id == j {
        SameValueKeepsWriting(w, a.event, j, key, size, v, c, k);
      } else {
        OthersKeepWriting(w, a.event, j, key, size, v, c, k);
      }
    }
  }

  /** A write without a timeout gets its deadline from the tick that arms it, and that tick has passed it. */
  lemma DueStep(w: World, a: Action, j: nat, key: Key, size: Size, v: nat, k: nat)
    requires Writing(w, j, key, size, v, false, k) && Permitted(w, a, j, key, size, Some(v))
    requires Due(w.host.units[j], a, j, false)
    ensures var u, u' := w.host.units[j], Act(w, a).host.units[j];
      u'.operation.state == WRITING && Holds(u', k) ==>
        (u.operation.state == WRITING && u'.timer == u.timer) || (Ticks(a) && u'.timer <= a.event.now)
  {
    var u := w.host.units[j];
    hide Step, Inv, OwnsKey, Truncate, Limit;
    if a.Host? {
      var e := a.event;
      if e.Deliver? {
        DeliverToOwner(w.host, e.reply, j, key, size);
      } else if e.TickUnit? && e.id == j {
        TickedUnit(w.host, j, e.now);
        assert e == TickUnit(j, e.now);
      } else if e.CallWriteUnchecked? && e.id == j {
        OnlyValueChanged(w.host, e, j, k);
      } else {
        BusyUnitUntouched(w.host, e, j, k);
      }
    }
  }

  // ---------------------------------------------------------------- on a run

  /** The runs the promise is about. */
  ghost predicate Permissible(w: World, actions: seq<Action>, j: nat, key: Key, size: Size, v: nat) {
    && AllPermitted(w, actions, j, key, size, Some(v)) && SteadyClock(actions)
    && forall a :: a in actions ==> Steady(a, key)
  }

  ghost predicate OnItsWay(
    w: World, actions: seq<Action>, i: nat, j: nat, key: Key, size: Size, v: nat, c: bool, k: nat) {
    Writing(w, j, key, size, v, c, k) && (!c ==> DueBy(w.host.units[j], actions, i))
  }

  lemma DueNext(u: StorageUnit, u': StorageUnit, actions: seq<Action>, i: nat)
    requires SteadyClock(actions) && i < |actions| && DueBy(u, actions, i)
    requires u'.operation.state == WRITING ==>
      (u.operation.state == WRITING && u'.timer == u.timer) || (Ticks(actions[i]) && u'.timer <= actions[i].event.now)
    ensures DueBy(u', actions, i + 1)
  {
  }

  lemma {:induction false} RunKeepsWriting(
    w: World, actions: seq<Action>, i: nat, j: nat, key: Key, size: Size, v: nat, c: bool, k: nat)
    requires OnItsWay(w, actions, 0, j, key, size, v, c, k) && v < Limit(Width(size))
    requires Permissible(w, actions, j, key, size, v) && i <= |actions|
    ensures var t := RunWorld(w, actions[..i]); OnItsWay(t, actions, i, j, key, size, v, c, k) || Gone(t, k)
  {
    hide RunWorld, Act, Permitted, Permissible, OnItsWay, Gone, Steady, SteadyClock, Limit;
    if i > 0 {
      var before, a := RunWorld(w, actions[..i - 1]), actions[i - 1];
      RunKeepsWriting(w, actions, i - 1, j, key, size, v, c, k);
      PermissibleAt(w, actions, i - 1, j, key, size, v);
      assert actions[..i] == actions[..i - 1] + [a];
      OneMoreAction(w, actions[..i - 1], a);
      if Gone(before, k) {
        GoneStaysGone(before, a, k);
      } else {
        WriteRunStep(before, actions, i - 1, j, key, size, v, c, k);
      }
    } else {
      NoActionYet(w, actions);
    }
  }

  lemma NoActionYet(w: World, actions: seq<Action>)
    ensures RunWorld(w, actions[..0]) == w
  {
  }

  lemma PermissibleAt(w: World, actions: seq<Action>, i: nat, j: nat, key: Key, size: Size, v: nat)
    requires Permissible(w, actions, j, key, size, v) && i < |actions|
    ensures Permitted(RunWorld(w, actions[..i]), actions[i], j, key, size, Some(v))
    ensures Steady(actions[i], key) && SteadyClock(actions)
  {
    hide Permitted, RunWorld;
    PermittedPrefix(w, actions, i, j, key, size, Some(v));
  }

  lemma WriteRunStep(w: World, actions: seq<Action>, i: nat, j: nat, key: Key, size: Size, v: nat, c: bool, k: nat)
    requires i < |actions| && OnItsWay(w, actions, i, j, key, size, v, c, k) && v < Limit(Width(size))
    requires Permitted(w, actions[i], j, key, size, Some(v)) && Steady(actions[i], key) && SteadyClock(actions)
    ensures var t := Act(w, actions[i]); OnItsWay(t, actions, i + 1, j, key, size, v, c, k) || Gone(t, k)
    ensures Tells(w, actions[i], k, true) ==> w.registers[key] == v
  {
    var a := actions[i];
    hide Act, Gone, Limit, Permitted, Tells, WriteTraffic, WritingUnit;
    WritingStep(w, a, j, key, size, v, c, k);
    if !c && !Gone(Act(w, a), k) {
      DueStep(w, a, j, key, size, v, k);
      DueNext(w.host.units[j], Act(w, a).host.units[j], actions, i);
    }
  }

  // ---------------------------------------------------------------- theorem

  function Accepted(w: World, j: nat, data: nat, timeout: int): World {
    Act(w, Host(CallWrite(j, data, timeout)))
  }

  /**
   What may be in flight for the key: writes of the same value only, and replies that would pass for a
   confirmation only if what they say is true already.
   */
  ghost predicate Harmless(w: World, key: Key, v: nat, timeout: int)
    requires key in w.registers
  {
    && (forall r :: r in w.toDevice && r.key == key && r.Write? ==> r.value == v)
    && (forall r :: r in w.toHost && r.key == key && Witnesses(r, v, timeout != 0) ==> w.registers[key] == v)
  }

  /** On every permissible run from the acceptance on: whenever the write is told success,
   the register holds the value. */
  ghost predicate SuccessMeansWritten(w: World, j: nat, data: nat, timeout: int, key: Key, size: Size) {
    forall actions, i ::
      0 <= i < |actions| && Permissible(Accepted(w, j, data, timeout), actions, j, key, size, Truncate(data, size))
      && Tells(RunWorld(Accepted(w, j, data, timeout), actions[..i]), actions[i], w.host.accepted, true) ==>
        Holding(RunWorld(Accepted(w, j, data, timeout), actions[..i]), key, Truncate(data, size))
  }

  predicate Holding(w: World, key: Key, v: nat) {
    key in w.registers && w.registers[key] == v
  }

  /** Accepting the write on a unit that owns its key, with harmless traffic, sets the stage. */
  lemma AcceptedWrite(w: World, j: nat, data: nat, timeout: int, key: Key, size: Size)
    requires Inv(w.host) && Owns(w.host, j, key, size) && Idle(w.host.units[j])
    requires RegisterFits(w, key, size) && Declared(w, key, size) && Harmless(w, key, Truncate(data, size), timeout)
    ensures var t := Accepted(w, j, data, timeout);
      && Writing(t, j, key, size, Truncate(data, size), timeout != 0, w.host.accepted)
      && t.host.units[j].operation.state == WAITING
  {
    var e := CallWrite(j, data, timeout);
    StepKeepsInv(w.host, e);
    StepKeepsOwner(w.host, e, j, key, size);
    hide Inv, OwnsKey, Limit, Truncate;
  }

  /**
   A checked write whose callback reports success has put its value into the device register: on every run,
   whichever of the two confirmations the host acted on, and whatever the channels did.
   */
  lemma WriteSafety(w: World, j: nat, data: nat, timeout: int, key: Key, size: Size, actions: seq<Action>, i: nat)
    requires Inv(w.host) && Owns(w.host, j, key, size) && Idle(w.host.units[j])
    requires RegisterFits(w, key, size) && Declared(w, key, size) && Harmless(w, key, Truncate(data, size), timeout)
    requires Permissible(Accepted(w, j, data, timeout), actions, j, key, size, Truncate(data, size)) && i < |actions|
    ensures var at := RunWorld(Accepted(w, j, data, timeout), actions[..i]);
      Tells(at, actions[i], w.host.accepted, true) ==> Holding(at, key, Truncate(data, size))
  {
    var start, v, k := Accepted(w, j, data, timeout), Truncate(data, size), w.host.accepted;
    AcceptedWrite(w, j, data, timeout, key, size);
    PermittedPrefix(start, actions, i, j, key, size, Some(Truncate(data, size)));
    hide Act, RunWorld, Permitted, Tells, Gone, Inv, Limit, Truncate, WriteTraffic, AllPermitted, Accepted;
    RunKeepsWriting(start, actions, i, j, key, size, v, timeout != 0, k);
    var at := RunWorld(start, actions[..i]);
    if Gone(at, k) {
      GoneStaysGone(at, actions[i], k);
    } else {
      WriteRunStep(at, actions, i, j, key, size, v, timeout != 0, k);
    }
  }

  // ---------------------------------------------------------------- what the unit holds

  ghost predicate Keeping(w: World, j: nat, size: Size, v: nat, k: nat) {
    && Inv(w.host) && j < |w.host.units| && Holds(w.host.units[j], k)
    && KeepingUnit(w.host.units[j], size, v)
  }

  predicate KeepingUnit(u: StorageUnit, size: Size, v: nat) {
    u.operation.mode == WRITE && u.operation.state != READING && Truncate(u.value, size) == v
  }

  lemma KeepingOwnTick(u: StorageUnit, now: int, size: Size, v: nat, k: nat)
    requires KeepingUnit(u, size, v) && Holds(u, k) && Tick(u, now).verdicts == []
    ensures KeepingUnit(Tick(u, now).unit, size, v) && Holds(Tick(u, now).unit, k)
  {
    hide Truncate, Deadline;
  }

  lemma KeepingReply(u: StorageUnit, r: Reply, size: Size, v: nat, k: nat)
    requires KeepingUnit(u, size, v) && Holds(u, k)
    ensures KeepingUnit(OnReply(u, r), size, v) && Holds(OnReply(u, r), k)
  {
    hide Truncate;
  }

  lemma HostKeepsKeeping(w: World, e: Event, j: nat, key: Key, size: Size, v: nat, k: nat)
    requires Keeping(w, j, size, v, k) && Permitted(w, Host(e), j, key, size, Some(v))
    ensures Keeping(w.(host := Step(w.host, e)), j, size, v, k) || Gone(w.(host := Step(w.host, e)), k)
  {
    StepKeepsInv(w.host, e);
    hide Inv, Tick, OnReply, Truncate;
    if e.Deliver? {
      Deadlines.UnitStep(w.host, e, j);
      KeepingReply(w.host.units[j], e.reply, size, v, k);
      hide Step;
    } else if e.TickUnit? && e.id == j {
      TickedUnit(w.host, j, e.now);
      assert e == TickUnit(j, e.now);
      hide Step;
      if Tick(w.host.units[j], e.now).verdicts == [] {
        KeepingOwnTick(w.host.units[j], e.now, size, v, k);
      } else {
        EndingStep(w.host, j, e.now, k);
        HolderIsAccepted(w.host, j, k);
        AcceptedGrows(w.host, e);
      }
    } else if e.CallWriteUnchecked? && e.id == j {
      OnlyValueChanged(w.host, e, j, k);
      hide Step;
    } else {
      BusyUnitUntouched(w.host, e, j, k);
      hide Step;
    }
  }

  lemma StepKeepsKeeping(w: World, a: Action, j: nat, key: Key, size: Size, v: nat, k: nat)
    requires Keeping(w, j, size, v, k) && Permitted(w, a, j, key, size, Some(v))
    ensures Keeping(Act(w, a), j, size, v, k) || Gone(Act(w, a), k)
  {
    hide Inv, Step, Truncate;
    if a.Host? { HostKeepsKeeping(w, a.event, j, key, size, v, k); }
  }

  lemma {:induction false} RunKeepsKeeping(
    w: World, actions: seq<Action>, j: nat, key: Key, size: Size, v: nat, k: nat)
    requires Keeping(w, j, size, v, k) && AllPermitted(w, actions, j, key, size, Some(v))
    ensures Keeping(RunWorld(w, actions), j, size, v, k) || Gone(RunWorld(w, actions), k)
  {
    hide Keeping, Gone, Act, Permitted;
    if actions != [] {
      var n := |actions| - 1;
      PermittedPrefix(w, actions, n, j, key, size, Some(v));
      RunKeepsKeeping(w, actions[..n], j, key, size, v, k);
      var at := RunWorld(w, actions[..n]);
      if Gone(at, k) {
        GoneStaysGone(at, actions[n], k);
      } else {
        StepKeepsKeeping(at, actions[n], j, key, size, v, k);
      }
    }
  }

  lemma AcceptedKeeping(w: World, j: nat, data: nat, timeout: int, size: Size)
    requires Inv(w.host) && j < |w.host.units| && Idle(w.host.units[j])
    ensures Keeping(Accepted(w, j, data, timeout), j, size, Truncate(data, size), w.host.accepted)
  {
    StepKeepsInv(w.host, CallWrite(j, data, timeout));
    hide Inv, Truncate;
  }

  /**
   Whatever replies come, on any unit, masked or not: when a checked write is told its verdict, the unit holds the
   value written, before the tick that tells it and after.
   */
  lemma ToldValueStays(
    w: World, j: nat, data: nat, timeout: int, key: Key, size: Size, actions: seq<Action>, i: nat, success: bool)
    requires Inv(w.host) && j < |w.host.units| && Idle(w.host.units[j])
    requires AllPermitted(Accepted(w, j, data, timeout), actions, j, key, size, Some(Truncate(data, size)))
    requires i < |actions|
    requires Tells(RunWorld(Accepted(w, j, data, timeout), actions[..i]), actions[i], w.host.accepted, success)
    ensures var at := RunWorld(Accepted(w, j, data, timeout), actions[..i]);
      HasValue(at, j, size, Truncate(data, size)) && HasValue(Act(at, actions[i]), j, size, Truncate(data, size))
  {
    var start, v, k := Accepted(w, j, data, timeout), Truncate(data, size), w.host.accepted;
    AcceptedKeeping(w, j, data, timeout, size);
    PermittedPrefix(start, actions, i, j, key, size, Some(v));
    hide Act, RunWorld, Permitted, Tells, Gone, Inv, Truncate, AllPermitted, Accepted;
    RunKeepsKeeping(start, actions[..i], j, key, size, v, k);
    var at := RunWorld(start, actions[..i]);
    if Gone(at, k) {
      GoneStaysGone(at, actions[i], k);
      assert false;
    }
    TellingKeepsValue(at, actions[i], j, k, success);
  }

  predicate HasValue(w: World, j: nat, size: Size, v: nat) {
    j < |w.host.units| && Truncate(w.host.units[j].value, size) == v
  }

  // ---------------------------------------------------------------- the other half

  /** Actions that are permitted in every world, ticks all at the same time. */
  predicate Plain(a: Action) {
    (Ticks(a) && a.event.now == 0) || (a.Host? && a.event.Deliver?) || a.DeviceWrite?
  }

  lemma PlainIsPermissible(w: World, actions: seq<Action>, j: nat, key: Key, size: Size, v: nat)
    requires forall i :: 0 <= i < |actions| ==> Plain(actions[i])
    ensures Permissible(w, actions, j, key, size, v)
  {
    hide RunWorld;
  }

  lemma Chained(w: World, a: Action, b: Action, c: Action)
    ensures RunWorld(w, [a, b]) == RunWorld(Act(w, a), [b])
    ensures RunWorld(w, [a, b, c]) == RunWorld(Act(Act(w, a), b), [c])
  {
    hide Act;
    var x, y := Act(w, a), Act(Act(w, a), b);
    assert RunWorld(w, []) == w && RunWorld(x, []) == x && RunWorld(y, []) == y;
    assert [] + [a] == [a] && [a] + [b] == [a, b] && [a, b] + [c] == [a, b, c] && [] + [b] == [b] && [] + [c] == [c];
    OneMoreAction(w, [], a);
    OneMoreAction(w, [a], b);
    OneMoreAction(w, [a, b], c);
    OneMoreAction(x, [], b);
    OneMoreAction(y, [], c);
  }

  /** Plain actions and a tick that then tells a success that is not true. */
  lemma Breaks(w: World, j: nat, data: nat, timeout: int, key: Key, size: Size, actions: seq<Action>)
    requires forall i :: 0 <= i < |actions| ==> Plain(actions[i])
    requires var at := RunWorld(Accepted(w, j, data, timeout), actions);
      Tells(at, Host(TickUnit(j, 0)), w.host.accepted, true) && !Holding(at, key, Truncate(data, size))
    ensures !SuccessMeansWritten(w, j, data, timeout, key, size)
  {
    var start, tick := Accepted(w, j, data, timeout), Host(TickUnit(j, 0));
    assert Plain(tick);
    hide Act, RunWorld, Permissible, Tells, Holding, Plain, Accepted, Truncate;
    PlainIsPermissible(start, actions + [tick], j, key, size, Truncate(data, size));
    assert (actions + [tick])[..|actions|] == actions && (actions + [tick])[|actions|] == tick;
  }

  /** The write accepted and armed: nothing has been sent, and any confirmation would be believed. */
  lemma ArmedWrite(w: World, j: nat, data: nat, timeout: int, key: Key, size: Size)
    requires Owns(w.host, j, key, size) && Idle(w.host.units[j])
    ensures var t := Act(Accepted(w, j, data, timeout), Host(TickUnit(j, 0)));
      && t.registers == w.registers && t.toDevice == w.toDevice && t.toHost == w.toHost
      && j < |t.host.units| && Owns(t.host, j, key, size) && Holds(t.host.units[j], w.host.accepted)
      && t.host.units[j].operation == Operation(WRITE, WRITING)
      && t.host.units[j].value == data && t.host.units[j].timer == Deadline(0, timeout)
  {
    var start := Accepted(w, j, data, timeout);
    StepKeepsOwner(w.host, CallWrite(j, data, timeout), j, key, size);
    StepKeepsOwner(start.host, TickUnit(j, 0), j, key, size);
    hide OwnsKey, Deadline, Truncate;
  }

  /** A believed confirmation makes the next tick tell success. */
  lemma Confirmed(w: World, r: Reply, j: nat, key: Key, size: Size, k: nat)
    requires Owns(w.host, j, key, size) && Holds(w.host.units[j], k) && r in w.toHost && r.key == key
    requires Believed(w.host.units[j], r)
    ensures var t := RunWorld(w, [Host(Deliver(r))]);
      Tells(t, Host(TickUnit(j, 0)), k, true) && t.registers == w.registers
  {
    var t := Act(w, Host(Deliver(r)));
    assert RunWorld(w, []) == w && [] + [Host(Deliver(r))] == [Host(Deliver(r))];
    OneMoreAction(w, [], Host(Deliver(r)));
    DeliverToOwner(w.host, r, j, key, size);
    Deadlines.ReplyKeepsTimer(w.host.units[j], r);
    hide OnReply, Step, RunWorld;
    SucceededTells(t.host.units[j], 0);
  }

  predicate Believed(u: StorageUnit, r: Reply) {
    Addressed(r) && OnReply(u, r).operation == u.operation.(state := SUCCESS)
  }

  lemma AcknowledgementBelieved(u: StorageUnit, key: Key)
    requires u.operation == Operation(WRITE, WRITING)
    ensures Believed(u, WriteSuccess(key))
  {
  }

  lemma AnswerBelieved(u: StorageUnit, key: Key, size: Size)
    requires u.operation == Operation(WRITE, WRITING_CONFIRMING)
    ensures Believed(u, ReadSuccess(key, size, Truncate(u.value, size)))
  {
    hide Truncate;
  }

  lemma SucceededTells(u: StorageUnit, now: int)
    requires Succeeds(u)
    ensures true in Tick(u, now).verdicts
  {
    assert [true][0] && [true, false][0];
  }

  /** An acknowledgement in flight while the register differs. */
  lemma StaleAcknowledgement(w: World, j: nat, data: nat, timeout: int, key: Key, size: Size)
    requires Owns(w.host, j, key, size) && Idle(w.host.units[j])
    requires WriteSuccess(key) in w.toHost && !Holding(w, key, Truncate(data, size))
    ensures !SuccessMeansWritten(w, j, data, timeout, key, size)
  {
    hide Owns, Act, RunWorld, Accepted, Tells, Truncate, Believed;
    var tick, ack := Host(TickUnit(j, 0)), Host(Deliver(WriteSuccess(key)));
    var armed := Act(Accepted(w, j, data, timeout), tick);
    ArmedWrite(w, j, data, timeout, key, size);
    AcknowledgementBelieved(armed.host.units[j], key);
    Confirmed(armed, WriteSuccess(key), j, key, size, w.host.accepted);
    Chained(Accepted(w, j, data, timeout), tick, ack, ack);
    Breaks(w, j, data, timeout, key, size, [tick, ack]);
  }

  /** An earlier write in flight that carries another value. */
  lemma StaleWrite(w: World, j: nat, data: nat, timeout: int, key: Key, size: Size, other: Size, x: nat)
    requires Owns(w.host, j, key, size) && Idle(w.host.units[j])
    requires Write(key, other, x) in w.toDevice && x != Truncate(data, size)
    ensures !SuccessMeansWritten(w, j, data, timeout, key, size)
  {
    hide Owns, Act, RunWorld, Accepted, Tells, Truncate, Believed;
    var tick, ack, late := Host(TickUnit(j, 0)), Host(Deliver(WriteSuccess(key))), DeviceWrite(key, other, x);
    var armed := Act(Accepted(w, j, data, timeout), tick);
    ArmedWrite(w, j, data, timeout, key, size);
    var written := Act(armed, late);
    LateWrite(armed, key, other, x);
    AcknowledgementBelieved(armed.host.units[j], key);
    Confirmed(written, WriteSuccess(key), j, key, size, w.host.accepted);
    Chained(Accepted(w, j, data, timeout), tick, late, ack);
    Breaks(w, j, data, timeout, key, size, [tick, late, ack]);
  }

  lemma LateWrite(w: World, key: Key, size: Size, x: nat)
    requires Write(key, size, x) in w.toDevice
    ensures var t := Act(w, DeviceWrite(key, size, x));
      t.host == w.host && Holding(t, key, x) && WriteSuccess(key) in t.toHost
  {
  }

  /** An old answer in flight that says what the write will ask for, while the register differs. */
  lemma StaleAnswer(w: World, j: nat, data: nat, timeout: int, key: Key, size: Size)
    requires Owns(w.host, j, key, size) && Idle(w.host.units[j]) && timeout != 0
    requires ReadSuccess(key, size, Truncate(data, size)) in w.toHost && !Holding(w, key, Truncate(data, size))
    ensures !SuccessMeansWritten(w, j, data, timeout, key, size)
  {
    hide Owns, Act, RunWorld, Accepted, Tells, Truncate, Believed;
    var tick, r := Host(TickUnit(j, 0)), ReadSuccess(key, size, Truncate(data, size));
    var armed := Act(Accepted(w, j, data, timeout), tick);
    ArmedWrite(w, j, data, timeout, key, size);
    SentWrite(armed, j, key, size, w.host.accepted);
    AnswerBelieved(Act(armed, tick).host.units[j], key, size);
    Confirmed(Act(armed, tick), r, j, key, size, w.host.accepted);
    Chained(Accepted(w, j, data, timeout), tick, tick, Host(Deliver(r)));
    Breaks(w, j, data, timeout, key, size, [tick, tick, Host(Deliver(r))]);
  }

  lemma SentWrite(w: World, j: nat, key: Key, size: Size, k: nat)
    requires Owns(w.host, j, key, size) && Holds(w.host.units[j], k)
    requires w.host.units[j].operation == Operation(WRITE, WRITING) && w.host.units[j].timer > 0
    ensures var t := Act(w, Host(TickUnit(j, 0)));
      && t.registers == w.registers && t.toHost == w.toHost
      && Write(key, size, Truncate(w.host.units[j].value, size)) in t.toDevice
      && j < |t.host.units| && Owns(t.host, j, key, size) && Holds(t.host.units[j], k)
      && t.host.units[j] == w.host.units[j].(operation := Operation(WRITE, WRITING_CONFIRMING))
  {
    StepKeepsOwner(w.host, TickUnit(j, 0), j, key, size);
    hide OwnsKey, Truncate;
  }

  /**
   The exact condition, for the only unit at work with its key, unmasked: success means that the register holds
   the value, on every run, exactly when the messages in flight for the key at acceptance are harmless.
   */
  lemma WriteSafetyExactly(w: World, j: nat, data: nat, timeout: int, key: Key, size: Size)
    requires Inv(w.host) && Owns(w.host, j, key, size) && Idle(w.host.units[j])
    requires RegisterFits(w, key, size) && Declared(w, key, size)
    ensures SuccessMeansWritten(w, j, data, timeout, key, size) <==> Harmless(w, key, Truncate(data, size), timeout)
  {
    var v := Truncate(data, size);
    if Harmless(w, key, v, timeout) {
      HarmlessKeepsPromise(w, j, data, timeout, key, size);
    } else {
      hide Owns, SuccessMeansWritten, Inv;
      if r :| r in w.toDevice && r.key == key && r.Write? && r.value != v {
        StaleWrite(w, j, data, timeout, key, size, r.size, r.value);
        assert r == Write(key, r.size, r.value);
      } else {
        var r :| r in w.toHost && r.key == key && Witnesses(r, v, timeout != 0) && w.registers[key] != v;
        if r.WriteSuccess? {
          assert r == WriteSuccess(key);
          StaleAcknowledgement(w, j, data, timeout, key, size);
        } else {
          assert r == ReadSuccess(key, size, v);
          StaleAnswer(w, j, data, timeout, key, size);
        }
      }
    }
  }

  lemma HarmlessKeepsPromise(w: World, j: nat, data: nat, timeout: int, key: Key, size: Size)
    requires Inv(w.host) && Owns(w.host, j, key, size) && Idle(w.host.units[j])
    requires RegisterFits(w, key, size) && Declared(w, key, size) && Harmless(w, key, Truncate(data, size), timeout)
    ensures SuccessMeansWritten(w, j, data, timeout, key, size)
  {
    hide Inv, Owns, RegisterFits, Declared, Harmless, Permissible, Tells, Holding, RunWorld, Accepted;
    forall actions: seq<Action>, i: nat | i < |actions|
      && Permissible(Accepted(w, j, data, timeout), actions, j, key, size, Truncate(data, size))
      && Tells(RunWorld(Accepted(w, j, data, timeout), actions[..i]), actions[i], w.host.accepted, true)
      ensures Holding(RunWorld(Accepted(w, j, data, timeout), actions[..i]), key, Truncate(data, size))
    {
      WriteSafety(w, j, data, timeout, key, size, actions, i);
    }
  }

  // ---------------------------------------------------------------- why the runs are those

  function ReadBack(w: World, key: Key, n: Size): Reply
    requires key in w.registers
  {
    ReadSuccess(key, n, Truncate(w.registers[key], n))
  }

  /** A write that waits for its answer is confirmed by a device whose register agrees in the width it answers in. */
  lemma Answered(w: World, j: nat, key: Key, size: Size, n: Size, k: nat)
    requires Owns(w.host, j, key, size) && Holds(w.host.units[j], k) && key in w.registers
    requires w.host.units[j].operation == Operation(WRITE, WRITING_CONFIRMING) && w.host.units[j].timer > 0
    requires Truncate(w.registers[key], n) == Truncate(w.host.units[j].value, n)
    ensures var tick := Host(TickUnit(j, 0));
      var t := RunWorld(w, [tick, DeviceRead(key, n), Host(Deliver(ReadBack(w, key, n)))]);
      Tells(t, tick, k, true) && t.registers == w.registers
  {
    var tick, r := Host(TickUnit(j, 0)), ReadBack(w, key, n);
    Asked(w, j, key, size, k);
    var asked := Act(w, tick);
    var answered := Act(asked, DeviceRead(key, n));
    assert answered.host == asked.host && answered.registers == w.registers && r in answered.toHost;
    AnswerBelieved(asked.host.units[j], key, n);
    hide Act, Owns, RunWorld, Tells, Truncate, Believed;
    Confirmed(answered, r, j, key, size, k);
    Chained(w, tick, DeviceRead(key, n), Host(Deliver(r)));
  }

  lemma Asked(w: World, j: nat, key: Key, size: Size, k: nat)
    requires Owns(w.host, j, key, size) && Holds(w.host.units[j], k)
    requires w.host.units[j].operation == Operation(WRITE, WRITING_CONFIRMING) && w.host.units[j].timer > 0
    ensures var t := Act(w, Host(TickUnit(j, 0)));
      && t.registers == w.registers && Read(key) in t.toDevice
      && j < |t.host.units| && Owns(t.host, j, key, size) && t.host.units[j] == w.host.units[j]
  {
    StepKeepsOwner(w.host, TickUnit(j, 0), j, key, size);
    hide OwnsKey, Truncate;
  }

  /**
   Why an unchecked write of another value must wait: it replaces the value of the operation under way. That one
   is sent, written and read back, and the checked write is told success for it, with nothing else in flight.
   */
  lemma UncheckedOverwrites(w: World, j: nat, data: nat, timeout: int, x: nat, key: Key, size: Size)
    requires Owns(w.host, j, key, size) && Idle(w.host.units[j]) && timeout != 0
    requires Truncate(x, size) != Truncate(data, size)
    ensures var tick, stored := Host(TickUnit(j, 0)), Truncate(x, size);
      var sent := Act(Act(Act(Accepted(w, j, data, timeout), tick), Host(CallWriteUnchecked(j, x, timeout))), tick);
      var written := Act(sent, DeviceWrite(key, size, stored));
      && Holding(written, key, stored)
      && var t := RunWorld(written, [tick, DeviceRead(key, size), Host(Deliver(ReadBack(written, key, size)))]);
         Tells(t, tick, w.host.accepted, true) && !Holding(t, key, Truncate(data, size))
  {
    hide Owns, RunWorld, Accepted, Tells, Truncate, Act;
    var tick, stored := Host(TickUnit(j, 0)), Truncate(x, size);
    var armed := Act(Accepted(w, j, data, timeout), tick);
    ArmedWrite(w, j, data, timeout, key, size);
    Overwritten(armed, j, x, timeout, key, size, w.host.accepted);
    var replaced := Act(armed, Host(CallWriteUnchecked(j, x, timeout)));
    SentWrite(replaced, j, key, size, w.host.accepted);
    LateWrite(Act(replaced, tick), key, size, stored);
    TruncateTwice(x, size);
    Answered(Act(Act(replaced, tick), DeviceWrite(key, size, stored)), j, key, size, size, w.host.accepted);
  }

  lemma Overwritten(w: World, j: nat, x: nat, timeout: int, key: Key, size: Size, k: nat)
    requires Owns(w.host, j, key, size) && Holds(w.host.units[j], k)
    ensures var t := Act(w, Host(CallWriteUnchecked(j, x, timeout)));
      && j < |t.host.units| && Owns(t.host, j, key, size) && Holds(t.host.units[j], k)
      && t.host.units[j] == w.host.units[j].(value := x)
  {
    StepKeepsOwner(w.host, CallWriteUnchecked(j, x, timeout), j, key, size);
    OnlyValueChanged(w.host, CallWriteUnchecked(j, x, timeout), j, k);
    hide OwnsKey, Step;
  }

  lemma TruncateTwice(x: nat, size: Size)
    ensures Truncate(Truncate(x, size), size) == Truncate(x, size)
  {
    TruncateFits(Truncate(x, size), size);
  }

  /**
   Why the device must answer in the declared width: the value is compared in the width of the answer. A register
   that agrees only in a narrower one confirms a write that never arrived.
   */
  lemma NarrowAnswerConfirms(w: World, j: nat, data: nat, timeout: int, key: Key, size: Size, n: Size)
    requires Owns(w.host, j, key, size) && Idle(w.host.units[j]) && timeout != 0
    requires key in w.registers && w.registers[key] != Truncate(data, size)
    requires Truncate(w.registers[key], n) == Truncate(data, n)
    ensures var tick := Host(TickUnit(j, 0));
      var sent := Act(Act(Accepted(w, j, data, timeout), tick), tick);
      && key in sent.registers
      && var t := RunWorld(sent, [tick, DeviceRead(key, n), Host(Deliver(ReadBack(sent, key, n)))]);
         Tells(t, tick, w.host.accepted, true) && !Holding(t, key, Truncate(data, size))
  {
    hide Owns, RunWorld, Accepted, Tells, Truncate, Act;
    var tick := Host(TickUnit(j, 0));
    ArmedWrite(w, j, data, timeout, key, size);
    SentWrite(Act(Accepted(w, j, data, timeout), tick), j, key, size, w.host.accepted);
    Answered(Act(Act(Accepted(w, j, data, timeout), tick), tick), j, key, size, n, w.host.accepted);
  }

  // ---------------------------------------------------------------- masked units

  /** Nothing moves the register away from `v`. */
  ghost predicate Still(w: World, j: nat, key: Key, size: Size, v: nat) {
    && OwnsKey(w.host, j, key, size) && Masked(w.host.units[j]) && Holding(w, key, v)
    && forall r :: r in w.toDevice && r.key == key && r.Write? ==> r.value == v
  }

  lemma MaskedSendsNothing(s: System, e: Event, j: nat, key: Key, size: Size)
    requires OwnsKey(s, j, key, size) && Masked(s.units[j])
    ensures forall r :: r in Sent(s, e) ==> r.key != key
  {
    SentByOwner(s, e, j, key, size);
    hide OwnsKey;
  }

  lemma StillStep(w: World, a: Action, j: nat, key: Key, size: Size, v: nat)
    requires Still(w, j, key, size, v) && Permitted(w, a, j, key, size, Some(v)) && Steady(a, key)
    ensures Still(Act(w, a), j, key, size, v)
  {
    if a.Host? {
      StepKeepsOwner(w.host, a.event, j, key, size);
      MaskedSendsNothing(w.host, a.event, j, key, size);
    }
    hide Step, OwnsKey, Sent;
  }

  lemma {:induction false} RunStill(w: World, actions: seq<Action>, j: nat, key: Key, size: Size, v: nat)
    requires Still(w, j, key, size, v) && AllPermitted(w, actions, j, key, size, Some(v))
      && forall a :: a in actions ==> Steady(a, key)
    ensures Still(RunWorld(w, actions), j, key, size, v)
  {
    hide Still, Act, Permitted;
    if actions != [] {
      var n := |actions| - 1;
      PermittedPrefix(w, actions, n, j, key, size, Some(v));
      RunStill(w, actions[..n], j, key, size, v);
      StillStep(RunWorld(w, actions[..n]), actions[n], j, key, size, v);
    }
  }

  /** A masked unit tells success at its first tick, having sent nothing. */
  lemma MaskedTells(w: World, j: nat, data: nat, timeout: int)
    requires j < |w.host.units| && Masked(w.host.units[j]) && Idle(w.host.units[j])
    ensures var t := Accepted(w, j, data, timeout);
      && t.registers == w.registers && t.toDevice == w.toDevice
      && Tells(t, Host(TickUnit(j, 0)), w.host.accepted, true) && Sent(t.host, TickUnit(j, 0)) == {}
  {
    SucceededTells(Accepted(w, j, data, timeout).host.units[j], 0);
  }

  /** For a masked unit success means that the register holds the value exactly when it did already and stays so. */
  lemma MaskedWriteExactly(w: World, j: nat, data: nat, timeout: int, key: Key, size: Size)
    requires OwnsKey(w.host, j, key, size) && Masked(w.host.units[j]) && Idle(w.host.units[j])
    ensures SuccessMeansWritten(w, j, data, timeout, key, size) <==>
            Holding(w, key, Truncate(data, size))
            && forall r :: r in w.toDevice && r.key == key && r.Write? ==> r.value == Truncate(data, size)
  {
    var v, start := Truncate(data, size), Accepted(w, j, data, timeout);
    MaskedTells(w, j, data, timeout);
    if !Holding(w, key, v) {
      hide Act, Accepted, Tells, Truncate, OwnsKey;
      assert RunWorld(start, []) == start;
      Breaks(w, j, data, timeout, key, size, []);
    } else if r :| r in w.toDevice && r.key == key && r.Write? && r.value != v {
      MaskedLateWrite(w, j, data, timeout, key, size, r);
    } else {
      StepKeepsOwner(w.host, CallWrite(j, data, timeout), j, key, size);
      hide OwnsKey, Truncate;
      assert Still(start, j, key, size, v);
      MaskedStaysTrue(w, j, data, timeout, key, size);
    }
  }

  lemma MaskedLateWrite(w: World, j: nat, data: nat, timeout: int, key: Key, size: Size, r: Request)
    requires j < |w.host.units| && Masked(w.host.units[j]) && Idle(w.host.units[j])
    requires r in w.toDevice && r.key == key && r.Write? && r.value != Truncate(data, size)
    ensures !SuccessMeansWritten(w, j, data, timeout, key, size)
  {
    var start, late := Accepted(w, j, data, timeout), DeviceWrite(key, r.size, r.value);
    MaskedTells(w, j, data, timeout);
    hide Accepted, Truncate;
    assert r == Write(key, r.size, r.value);
    LateWrite(start, key, r.size, r.value);
    assert RunWorld(start, []) == start && [] + [late] == [late];
    OneMoreAction(start, [], late);
    hide Act, RunWorld;
    Breaks(w, j, data, timeout, key, size, [late]);
  }

  lemma MaskedStaysTrue(w: World, j: nat, data: nat, timeout: int, key: Key, size: Size)
    requires Still(Accepted(w, j, data, timeout), j, key, size, Truncate(data, size))
    ensures SuccessMeansWritten(w, j, data, timeout, key, size)
  {
    var start := Accepted(w, j, data, timeout);
    forall actions: seq<Action>, i: nat | i < |actions|
      && Permissible(start, actions, j, key, size, Truncate(data, size))
      ensures Holding(RunWorld(start, actions[..i]), key, Truncate(data, size))
    {
      PermittedPrefix(start, actions, i, j, key, size, Some(Truncate(data, size)));
      RunStill(start, actions[..i], j, key, size, Truncate(data, size));
    }
  }

  // ---------------------------------------------------------------- shared keys

  function Sharing(key: Key): World {
    var u := StorageUnit(StorageInfo(key, Size2, {}), IDLE, 0, 0, 0, None);
    World(System([u, u], map[key := 1], 0, []), map[key := 0], {}, {})
  }

  /**
   Why the other unit with the key must be left alone: two units with one key, nothing in flight. While the
   second one's write of 5 waits for its answer the first one writes 7. The device's acknowledgement of that
   reaches the second, which is told success with 7 in the register.
   */
  lemma SharedKeyWrite(key: Key)
    ensures var w := Sharing(key);
      var called := Act(Act(w, Host(CallWrite(1, 5, 1000))), Host(CallWrite(0, 7, 1000)));
      var sent := Act(Act(called, Host(TickUnit(0, 0))), Host(TickUnit(0, 0)));
      var told := Act(Act(Act(sent, Host(TickUnit(1, 0))), DeviceWrite(key, Size2, 7)),
                      Host(Deliver(WriteSuccess(key))));
      && Inv(w.host) && Owns(w.host, 1, key, Size2) && NoTraffic(w, key) && RegisterFits(w, key, Size2)
      && Tells(told, Host(TickUnit(1, 0)), 0, true) && Holding(told, key, 7)
  {
    SharedStart(key);
    SharedCalls(key);
    hide Act, Tells, Holding, Sharing, Inv, Owns, NoTraffic, RegisterFits, Truncate;
    SharedSends(Act(Act(Sharing(key), Host(CallWrite(1, 5, 1000))), Host(CallWrite(0, 7, 1000))), key);
  }

  lemma SharedStart(key: Key)
    ensures var w := Sharing(key);
      Inv(w.host) && Owns(w.host, 1, key, Size2) && NoTraffic(w, key) && RegisterFits(w, key, Size2)
    ensures Truncate(7, Size2) == 7
  {
    assert Limit(0) == 1 && Limit(1) == 0x100 && Limit(2) == 0x1_0000;
    TruncateFits(7, Size2);
  }

  lemma SharedCalls(key: Key)
    ensures var w := Act(Act(Sharing(key), Host(CallWrite(1, 5, 1000))), Host(CallWrite(0, 7, 1000)));
      && |w.host.units| == 2 && w.host.index == map[key := 1] && w.registers == map[key := 0]
      && SharedUnit(w.host.units[0], key, 7, Some(1), WAITING, 1000)
      && SharedUnit(w.host.units[1], key, 5, Some(0), WAITING, 1000)
  {
    hide Limit, Truncate;
  }

  predicate SharedUnit(u: StorageUnit, key: Key, value: nat, callback: Option<nat>, state: State, timer: int) {
    u == StorageUnit(StorageInfo(key, Size2, {}), Operation(WRITE, state), 0, value, timer, callback)
  }

  lemma SharedSends(w: World, key: Key)
    requires |w.host.units| == 2 && w.host.index == map[key := 1] && Truncate(7, Size2) == 7
    requires SharedUnit(w.host.units[0], key, 7, Some(1), WAITING, 1000)
    requires SharedUnit(w.host.units[1], key, 5, Some(0), WAITING, 1000)
    ensures var sent := Act(Act(w, Host(TickUnit(0, 0))), Host(TickUnit(0, 0)));
      var told := Act(Act(Act(sent, Host(TickUnit(1, 0))), DeviceWrite(key, Size2, 7)),
                      Host(Deliver(WriteSuccess(key))));
      Tells(told, Host(TickUnit(1, 0)), 0, true) && Holding(told, key, 7)
  {
    hide Truncate;
    var armed := Act(w, Host(TickUnit(0, 0)));
    assert SharedUnit(armed.host.units[0], key, 7, Some(1), WRITING, 1000) && armed.host.units[1] == w.host.units[1];
    var sent := Act(armed, Host(TickUnit(0, 0)));
    assert Write(key, Size2, 7) in sent.toDevice && sent.host.units[1] == w.host.units[1];
    var waits := Act(sent, Host(TickUnit(1, 0)));
    assert SharedUnit(waits.host.units[1], key, 5, Some(0), WRITING, 1000) && Write(key, Size2, 7) in waits.toDevice;
    var written := Act(waits, DeviceWrite(key, Size2, 7));
    LateWrite(waits, key, Size2, 7);
    assert written.host.index == map[key := 1];
    var told := Act(written, Host(Deliver(WriteSuccess(key))));
    assert SharedUnit(told.host.units[1], key, 5, Some(0), SUCCESS, 1000);
    SucceededTells(told.host.units[1], 0);
  }
}
