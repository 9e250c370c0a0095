/**
 Host and device over two lossy channels. A channel is the set of messages sent on it and not yet lost, and any
 of them may be delivered at any time, again, or never: loss, duplication, delay and reordering at once.
 */
module Worlds {
  import Bits
  import opened Common
  import opened Wire
  import opened StorageUnits
  import opened Completions

  datatype World = World(host: System, registers: map<Key, nat>, toDevice: set<Request>, toHost: set<Reply>)

  datatype Action =
    | Host(event: Event)
    | DeviceRead(key: Key, size: Size)                // executes a read in flight, answers in this width
    | DeviceWrite(key: Key, size: Size, value: nat)   // executes a write in flight and acknowledges it
    | DeviceRefuse(request: Request, code: nat)
    | Drift(key: Key, value: nat)                     // the register changes on its own
    | LoseRequest(request: Request)                   // a message that will not be delivered any more
    | LoseReply(reply: Reply)

  function Act(w: World, a: Action): World {
    match a
    case Host(e) => HostActs(w, e)
    case DeviceRead(key, size) =>
      if Read(key) in w.toDevice && key in w.registers then
        w.(toHost := w.toHost + {ReadSuccess(key, size, Truncate(w.registers[key], size))})
      else w
    case DeviceWrite(key, size, value) =>
      if Write(key, size, value) in w.toDevice then
        w.(registers := w.registers[key := value], toHost := w.toHost + {WriteSuccess(key)})
      else w
    case DeviceRefuse(r, code) =>
      if r in w.toDevice then
        w.(toHost := w.toHost + {if r.Read? then ReadError(r.key, code) else WriteError(r.key, code)})
      else w
    case Drift(key, value) => w.(registers := w.registers[key := value])
    case LoseRequest(r) => w.(toDevice := w.toDevice - {r})
    case LoseReply(r) => w.(toHost := w.toHost - {r})
  }

  function HostActs(w: World, e: Event): World {
    if e.Deliver? && e.reply !in w.toHost then w
    else w.(host := Step(w.host, e), toDevice := w.toDevice + Sent(w.host, e))
  }

  /** The request a tick puts on the wire. */
  function Sent(s: System, e: Event): set<Request> {
    if e.TickUnit? && e.id < |s.units| && Tick(s.units[e.id], e.now).request.Some?
    then {Tick(s.units[e.id], e.now).request.value} else {}
  }

  function RunWorld(w: World, actions: seq<Action>): World {
    if actions == [] then w else Act(RunWorld(w, actions[..|actions| - 1]), actions[|actions| - 1])
  }

  /** This action makes the callback of operation `k` with this verdict. */
  predicate Tells(w: World, a: Action, k: nat, success: bool) {
    && a.Host? && a.event.TickUnit? && a.event.id < |w.host.units|
    && var u := w.host.units[a.event.id];
       u.callback == Some(k) && success in Tick(u, a.event.now).verdicts
  }

  // ---------------------------------------------------------------- hypotheses

  /** Replies with the key reach unit `j`, which has this size, and any other unit with the key is idle. */
  ghost predicate OwnsKey(s: System, j: nat, key: Key, size: Size) {
    && j < |s.units|
    && s.units[j].info.key == key && s.units[j].info.size == size
    && key in s.index && (forall other :: other in s.index && s.index[other] == j <==> other == key)
    && forall i :: 0 <= i < |s.units| && i != j && s.units[i].info.key == key ==> Idle(s.units[i])
  }

  ghost predicate Owns(s: System, j: nat, key: Key, size: Size) {
    OwnsKey(s, j, key, size) && !Masked(s.units[j])
  }

  ghost predicate RegisterFits(w: World, key: Key, size: Size) {
    key in w.registers && w.registers[key] < Limit(Width(size))
  }

  /** Everything in flight with the key is of the declared width. */
  ghost predicate Declared(w: World, key: Key, size: Size) {
    && (forall r :: r in w.toDevice && r.key == key && r.Write? ==> r.value < Limit(Width(size)))
    && (forall r :: r in w.toHost && r.key == key && r.ReadSuccess? ==> r.size == size)
  }

  /** Nobody starts anything on another unit with the key. */
  predicate KeepsOff(s: System, e: Event, j: nat, key: Key) {
    !e.TickUnit? && !e.Deliver? && e.id != j && e.id < |s.units| ==> s.units[e.id].info.key != key
  }

  /** What a call leaves as the unit's value, cut to its size, is the one to be kept, if any is. */
  predicate Keeps(e: Event, size: Size, kept: Option<nat>)
    requires e.CallWriteUnchecked?
  {
    kept == Some(Truncate(e.data, size))
  }

  /**
   The device answers in the declared width, nobody overwrites the value of the busy unit, unless with the one to
   be kept, and any other unit with the key is left alone.
   */
  predicate Permitted(w: World, a: Action, j: nat, key: Key, size: Size, kept: Option<nat>) {
    && (a.DeviceRead? && a.key == key ==> a.size == size)
    && (a.Host? && a.event.CallWriteUnchecked? && a.event.id == j && j < |w.host.units| ==>
          Idle(w.host.units[j]) || Keeps(a.event, size, kept))
    && (a.Host? ==> KeepsOff(w.host, a.event, j, key))
  }

  /** For a write the register has no will of its own; for a read it may change to any value of its width. */
  predicate Steady(a: Action, key: Key) {
    a.Drift? ==> a.key != key
  }

  predicate Sized(a: Action, key: Key, size: Size) {
    a.Drift? && a.key == key ==> a.value < Limit(Width(size))
  }

  ghost predicate AllPermitted(
    w: World, actions: seq<Action>, j: nat, key: Key, size: Size, kept: Option<nat>) {
    forall i :: 0 <= i < |actions| ==> Permitted(RunWorld(w, actions[..i]), actions[i], j, key, size, kept)
  }

  predicate Ticks(a: Action) {
    a.Host? && a.event.TickUnit?
  }

  /** The clock the ticks read is a steady one. */
  ghost predicate SteadyClock(actions: seq<Action>) {
    forall p, q :: 0 <= p < q < |actions| && Ticks(actions[p]) && Ticks(actions[q]) ==>
      actions[p].event.now <= actions[q].event.now
  }

  lemma PermittedPrefix(
    w: World, actions: seq<Action>, i: nat, j: nat, key: Key, size: Size, kept: Option<nat>)
    requires AllPermitted(w, actions, j, key, size, kept) && i < |actions|
    ensures AllPermitted(w, actions[..i], j, key, size, kept)
    ensures Permitted(RunWorld(w, actions[..i]), actions[i], j, key, size, kept)
  {
    hide RunWorld, Permitted;
    forall m | 0 <= m < i
      ensures actions[..i][..m] == actions[..m] && actions[..i][m] == actions[m]
    {
    }
  }

  // ---------------------------------------------------------------- what a step does to the owner

  /** The operation has been told its verdicts; no later event speaks to it. */
  ghost predicate Gone(w: World, k: nat) {
    Inv(w.host) && k < w.host.accepted && !Pending(w.host, k)
  }

  lemma GoneStaysGone(w: World, a: Action, k: nat)
    requires Gone(w, k)
    ensures Gone(Act(w, a), k) && !Tells(w, a, k, true) && !Tells(w, a, k, false)
  {
    if a.Host? {
      var s, e := w.host, a.event;
      StepKeepsInv(s, e);
      QuietStep(s, e, k);
      hide Step, Inv, Tick, Completions.Quiet;
      if e.TickUnit? && e.id < |s.units| && s.units[e.id].callback == Some(k) {
        assert !Holds(s.units[e.id], k);
        IdleSaysNothing(s.units[e.id], e.now);
      }
    }
  }

  lemma StepKeepsOwner(s: System, e: Event, j: nat, key: Key, size: Size)
    requires OwnsKey(s, j, key, size) && KeepsOff(s, e, j, key)
    ensures OwnsKey(Step(s, e), j, key, size) && Step(s, e).units[j].info == s.units[j].info
  {
    forall i: nat | i < |s.units|
      ensures Step(s, e).units[i].info == s.units[i].info
    {
      StepKeepsInfo(s, e, i);
    }
    forall i: nat | i < |s.units| && i != j && s.units[i].info.key == key
      ensures Idle(Step(s, e).units[i])
    {
      StepKeepsIdle(s, e, i);
    }
    hide Step;
  }

  lemma StepKeepsIdle(s: System, e: Event, i: nat)
    requires i < |s.units| && Idle(s.units[i]) && (!e.TickUnit? && !e.Deliver? ==> e.id != i)
    ensures Idle(Step(s, e).units[i])
  {
    if e.Deliver? {
      HandleReplyKeepsHolders(s.units, s.index, e.reply);
      hide HandleReply;
    }
  }

  lemma StepKeepsInfo(s: System, e: Event, i: nat)
    requires i < |s.units|
    ensures Step(s, e).units[i].info == s.units[i].info
  {
  }

  /** Only the owner sends requests with the key. */
  lemma SentByOwner(s: System, e: Event, j: nat, key: Key, size: Size)
    requires OwnsKey(s, j, key, size)
    ensures forall r :: r in Sent(s, e) && r.key == key ==> e.TickUnit? && e.id == j
    ensures forall r :: r in Sent(s, e) && r.key == key ==>
      r == Read(key)
      || (s.units[j].operation.state == WRITING && r == Write(key, size, Truncate(s.units[j].value, size)))
  {
  }

  lemma TruncateFits(x: nat, size: Size)
    requires x < Limit(Width(size))
    ensures Truncate(x, size) == x
  {
    Bits.ModSplit(x, 0, x, Limit(Width(size)));
    hide Limit;
  }

  lemma DeliverToOwner(s: System, r: Reply, j: nat, key: Key, size: Size)
    requires OwnsKey(s, j, key, size)
    ensures Step(s, Deliver(r)).units[j] == if r.key == key && Addressed(r) then OnReply(s.units[j], r) else s.units[j]
  {
    hide OnReply;
  }

  lemma VerdictTrue(u: StorageUnit, now: int)
    ensures true in Tick(u, now).verdicts ==> Succeeds(u)
  {
  }

  lemma TickedUnit(s: System, j: nat, now: int)
    requires j < |s.units|
    ensures Step(s, TickUnit(j, now)).units[j] == Tick(s.units[j], now).unit
  {
  }

  lemma BusyUnitUntouched(s: System, e: Event, j: nat, k: nat)
    requires j < |s.units| && Holds(s.units[j], k) && !e.Deliver?
    requires e.id == j ==> !e.TickUnit? && !e.CallWriteUnchecked?
    ensures Step(s, e).units[j] == s.units[j]
  {
  }

  lemma OnlyValueChanged(s: System, e: Event, j: nat, k: nat)
    requires j < |s.units| && Holds(s.units[j], k) && e.CallWriteUnchecked? && e.id == j
    ensures Step(s, e).units[j] == s.units[j].(value := e.data)
  {
  }

  lemma NotTheHolder(w: World, e: Event, j: nat, k: nat)
    requires Inv(w.host) && j < |w.host.units| && Holds(w.host.units[j], k)
    requires e.TickUnit? ==> e.id != j
    ensures !Tells(w, Host(e), k, true)
  {
    if e.TickUnit? && e.id < |w.host.units| {
      OneHolder(w.host.units, e.id, j, k);
      if Idle(w.host.units[e.id]) { IdleSaysNothing(w.host.units[e.id], e.now); }
    }
    hide Inv, Tick;
  }

  /** The tick that tells a verdict leaves every unit's value alone. */
  lemma TellingKeepsValue(w: World, a: Action, j: nat, k: nat, success: bool)
    requires Tells(w, a, k, success) && j < |w.host.units|
    ensures |Act(w, a).host.units| == |w.host.units|
    ensures Act(w, a).host.units[j].value == w.host.units[j].value
  {
    TickKeepsValue(w.host.units[a.event.id], a.event.now);
    hide Tick;
  }

  lemma TickKeepsValue(u: StorageUnit, now: int)
    ensures Tick(u, now).unit.value == u.value
  {
    hide Truncate, Deadline;
  }

  lemma UndeliveredIsNothing(w: World, e: Event)
    requires e.Deliver? && e.reply !in w.toHost
    ensures Act(w, Host(e)) == w
  {
  }

  // ---------------------------------------------------------------- an empty wire

  ghost predicate NoTraffic(w: World, key: Key) {
    (forall r :: r in w.toDevice ==> r.key != key) && (forall r :: r in w.toHost ==> r.key != key)
  }

  /** From any world losses lead to one with nothing in flight for the key, and change nothing else. */
  lemma Quiesce(w: World, key: Key) returns (losses: seq<Action>)
    ensures forall a :: a in losses ==> a.LoseRequest? || a.LoseReply?
    ensures var t := RunWorld(w, losses); NoTraffic(t, key) && t.host == w.host && t.registers == w.registers
  {
    losses := [];
    var t := w;
    while exists r :: r in t.toDevice && r.key == key
      invariant t == RunWorld(w, losses) && t.host == w.host && t.registers == w.registers
      invariant forall a :: a in losses ==> a.LoseRequest? || a.LoseReply?
      decreases |t.toDevice|
    {
      var r :| r in t.toDevice && r.key == key;
      OneMoreAction(w, losses, LoseRequest(r));
      losses, t := losses + [LoseRequest(r)], Act(t, LoseRequest(r));
    }
    while exists r :: r in t.toHost && r.key == key
      invariant t == RunWorld(w, losses) && t.host == w.host && t.registers == w.registers
      invariant forall a :: a in losses ==> a.LoseRequest? || a.LoseReply?
      invariant forall r :: r in t.toDevice ==> r.key != key
      decreases |t.toHost|
    {
      var r :| r in t.toHost && r.key == key;
      OneMoreAction(w, losses, LoseReply(r));
      losses, t := losses + [LoseReply(r)], Act(t, LoseReply(r));
    }
  }

  lemma OneMoreAction(w: World, actions: seq<Action>, a: Action)
    ensures RunWorld(w, actions + [a]) == Act(RunWorld(w, actions), a)
  {
    hide Act;
    assert (actions + [a])[..|actions|] == actions;
  }

  lemma {:induction false} RunWorldAppend(w: World, actions: seq<Action>, more: seq<Action>)
    ensures RunWorld(w, actions + more) == RunWorld(RunWorld(w, actions), more)
  {
    hide Act;
    if more == [] {
      assert actions + more == actions;
    } else {
      var n := |more| - 1;
      RunWorldAppend(w, actions, more[..n]);
      assert actions + more == actions + more[..n] + [more[n]];
      OneMoreAction(w, actions + more[..n], more[n]);
    }
  }

  lemma RunThree(w: World, a: Action, b: Action, c: Action)
    ensures RunWorld(w, [a, b]) == Act(Act(w, a), b)
    ensures RunWorld(w, [a, b, c]) == Act(Act(Act(w, a), b), c)
  {
    var none: seq<Action> := [];
    assert RunWorld(w, none) == w;
    hide Act, RunWorld;
    assert none + [a] == [a] && [a] + [b] == [a, b] && [a, b] + [c] == [a, b, c];
    OneMoreAction(w, none, a);
    OneMoreAction(w, [a], b);
    OneMoreAction(w, [a, b], c);
  }

  lemma RunFive(w: World, a: Action, b: Action, c: Action, d: Action, e: Action)
    ensures RunWorld(w, [a, b, c, d, e]) == Act(Act(Act(Act(Act(w, a), b), c), d), e)
  {
    hide Act, RunWorld;
    RunThree(w, a, b, c);
    RunThree(RunWorld(w, [a, b, c]), d, e, e);
    RunWorldAppend(w, [a, b, c], [d, e]);
    assert [a, b, c] + [d, e] == [a, b, c, d, e];
  }
}
