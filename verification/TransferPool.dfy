/**
 The fixed pool of USB transfers going round: free ring, popped by the sending thread, in flight,
 being recycled by the completion callback. Both threads run the ring code step by step.
 */
module TransferPool {
  import Bits
  import opened Common
  import opened RingBuffers
  import opened SpscRing

  datatype Pool = Pool(
    ring: Ring<nat>,
    held: Option<nat>,       // taken out by the sender, not yet submitted
    inFlight: set<nat>,
    recycling: Option<nat>,  // completed, not yet back in the ring
    full: bool)              // `push_back` found no room: "The ring queue is full"

  datatype PoolStep =
    | PopBegin
    | PopLoad
    | PopTake
    | PopStore
    | Submit
    | Complete(id: nat)      // libusb completes a transfer in flight and calls back
    | PushLoad
    | PushPlace
    | PushStore

  function Ids(n: nat): seq<nat> {
    seq(n, i => i)
  }

  /** The pool as the constructor leaves it: all transfers in the ring. */
  function InitPool(n: nat, size: nat): (p: Pool)
    requires n <= size
    ensures |p.ring.slots| == size
  {
    var slots := seq(size, i => if 0 <= i < n then i else 0);
    Pool(Ring(slots, n, 0, ProducerIdle, ConsumerIdle, Ids(n), []), None, {}, None, false)
  }

  function ApplyPool(p: Pool, step: PoolStep): (p': Pool)
    requires |p.ring.slots| > 0
    ensures |p'.ring.slots| == |p.ring.slots|
  {
    match step
    case PopBegin => if p.held.None? then p.(ring := Apply(p.ring, BeginPop(1))) else p
    case PopLoad => p.(ring := Apply(p.ring, LoadOwnOut))
    case PopTake =>
      if CanRead(p.ring) then
        p.(ring := Apply(p.ring, ReadSlot), held := Some(p.ring.slots[ReadIndex(p.ring)]))
      else p
    case PopStore => p.(ring := Apply(p.ring, StoreOut))
    case Submit => if p.ring.consumer.ConsumerIdle? then DoSubmit(p) else p
    case Complete(id) => if id in p.inFlight && p.recycling.None? then DoComplete(p, id) else p
    case PushLoad => if p.ring.producer.Pushing? then DoPushLoad(p) else p
    case PushPlace => p.(ring := Apply(p.ring, WriteSlot))
    case PushStore =>
      if p.ring.producer.Writing? && p.ring.producer.written == |p.ring.producer.items| then
        p.(ring := Apply(p.ring, StoreIn), recycling := None)
      else p
  }

  function DoSubmit(p: Pool): Pool {
    if p.held.Some? then p.(held := None, inFlight := p.inFlight + {p.held.value}) else p
  }

  function DoComplete(p: Pool, id: nat): Pool
    requires |p.ring.slots| > 0
  {
    p.(inFlight := p.inFlight - {id}, recycling := Some(id), ring := Apply(p.ring, BeginPush([id])))
  }

  function DoPushLoad(p: Pool): Pool
    requires |p.ring.slots| > 0
  {
    var ring := Apply(p.ring, LoadOut);
    p.(ring := ring, full := p.full || ring.producer.ProducerIdle?)
  }

  function RunPool(p: Pool, steps: seq<PoolStep>): (p': Pool)
    requires |p.ring.slots| > 0
    ensures |p'.ring.slots| == |p.ring.slots|
    decreases |steps|
  {
    if steps == [] then p else ApplyPool(RunPool(p, steps[..|steps| - 1]), steps[|steps| - 1])
  }

  // ---------------------------------------------------------------- invariant

  function OneOf(x: Option<nat>): multiset<nat> {
    if x.Some? then multiset{x.value} else multiset{}
  }

  /** Every transfer, as often as it is to be found anywhere. */
  ghost function Whereabouts(p: Pool): multiset<nat> {
    multiset(Queue(p.ring)) + OneOf(p.held) + multiset(p.inFlight) + OneOf(p.recycling)
  }

  ghost predicate SenderInv(p: Pool) {
    match p.ring.consumer
    case ConsumerIdle => true
    case Popping(limit, _) => limit == 1 && p.held.None?
    case Reading(_, count, taken) => count == 1 && (p.held.Some? <==> taken == 1)
  }

  ghost predicate RecyclerInv(p: Pool) {
    match p.ring.producer
    case ProducerIdle => p.recycling.None?
    case Pushing(items, _) => p.recycling.Some? && items == [p.recycling.value]
    case Writing(items, _, _) => p.recycling.Some? && items == [p.recycling.value]
  }

  ghost predicate PoolInv(p: Pool, n: nat, logSize: nat) {
    && Inv(p.ring, logSize)
    && n <= |p.ring.slots|
    && Whereabouts(p) == multiset(Ids(n))
    && SenderInv(p)
    && RecyclerInv(p)
    && !p.full
  }

  lemma IdsWindow(n: nat, slots: seq<nat>)
    requires 0 < |slots| && n <= |slots|
    requires forall i :: 0 <= i < n ==> slots[i] == i
    ensures Window(slots, 0, n) == Ids(n)
  {
    forall i | 0 <= i < n
      ensures Window(slots, 0, n)[i] == Ids(n)[i]
    {
      SlotSmall(i, |slots|);
    }
  }

  lemma InitRingInv(r: Ring<nat>, n: nat, logSize: nat)
    requires logSize <= 63 && n <= Bits.Pow2(logSize) == |r.slots|
    requires r == Ring(r.slots, n, 0, ProducerIdle, ConsumerIdle, Ids(n), [])
    requires Window(r.slots, 0, n) == Ids(n)
    ensures Inv(r, logSize)
  {
    hide Bits.Pow2, Slot, Window, Bits.Wrap;
    Bits.CapacityDividesWord(logSize);
    WrapSmall(n);
    WrapSmall(0);
    assert r.pushed[0..] == Ids(n);
  }

  lemma InitPoolInv(n: nat, logSize: nat)
    requires logSize <= 63 && n <= Bits.Pow2(logSize)
    ensures PoolInv(InitPool(n, Bits.Pow2(logSize)), n, logSize)
  {
    hide Bits.Pow2, Slot, Window, Inv;
    var p := InitPool(n, Bits.Pow2(logSize));
    IdsWindow(n, p.ring.slots);
    InitRingInv(p.ring, n, logSize);
    assert Queue(p.ring) == Ids(n);
  }

  /** When the callback asks for room there is some, even in a ring the pool exactly fills. */
  lemma RoomToRecycle(p: Pool, n: nat, logSize: nat)
    requires PoolInv(p, n, logSize) && p.recycling.Some?
    ensures |p.ring.pushed| - Released(p.ring) < |p.ring.slots|
  {
    hide Bits.Wrap, Bits.Pow2, Slot, Window, Apply;
    assert |Whereabouts(p)| == |Queue(p.ring)| + |OneOf(p.held)| + |p.inFlight| + 1;
    assert |multiset(Ids(n))| == n;
  }

  lemma LoadOutFindsRoom(r: Ring<nat>, logSize: nat)
    requires Inv(r, logSize) && r.producer.Pushing? && |r.producer.items| == 1 && |r.slots| > 0
    requires |r.pushed| - Released(r) < |r.slots|
    ensures Apply(r, LoadOut) == r.(producer := Writing(r.producer.items, r.producer.own, 0))
  {
    hide Bits.Wrap, Bits.Pow2, Slot, Window, SlotsHold;
    Bits.CapacityDividesWord(logSize);
    WrappedDistance(|r.pushed|, Released(r));
    WrapSmall(|r.slots| - (|r.pushed| - Released(r)));
    assert r.producer.items[..1] == r.producer.items;
  }

  lemma PushLoadKeepsInv(p: Pool, n: nat, logSize: nat)
    requires PoolInv(p, n, logSize) && p.ring.producer.Pushing? && |p.ring.slots| > 0
    ensures PoolInv(ApplyPool(p, PushLoad), n, logSize)
  {
    hide Inv, Queue, Ids, Apply;
    StepKeepsInv(p.ring, LoadOut, logSize);
    RoomToRecycle(p, n, logSize);
    LoadOutFindsRoom(p.ring, logSize);
    SameQueue(p.ring, Apply(p.ring, LoadOut));
  }

  lemma TakeRemovesHead(r: Ring<nat>, logSize: nat)
    requires Inv(r, logSize) && CanRead(r)
    ensures Queue(r) == [r.slots[ReadIndex(r)]] + Queue(Apply(r, ReadSlot))
  {
    ReadSlotKeepsInv(r, logSize);
    PoppedWithin(r, logSize);
    PoppedWithin(ApplyReadSlot(r), logSize);
    hide Inv, ReadIndex, CanRead;
    SplitHead(r.pushed, |r.popped|);
  }

  lemma PoppedWithin(r: Ring<nat>, logSize: nat)
    requires Inv(r, logSize)
    ensures |r.popped| <= |r.pushed|
  {
    hide Bits.Wrap, Bits.Pow2, Slot, Window;
  }

  lemma SplitHead(s: seq<nat>, n: nat)
    requires n < |s|
    ensures s[n..] == [s[n]] + s[n + 1..]
  {
  }

  lemma PopTakeKeepsInv(p: Pool, n: nat, logSize: nat)
    requires PoolInv(p, n, logSize) && CanRead(p.ring)
    ensures PoolInv(ApplyPool(p, PopTake), n, logSize)
  {
    hide Inv, ReadIndex, Queue, Ids;
    ReadSlotKeepsInv(p.ring, logSize);
    TakeRemovesHead(p.ring, logSize);
    var q := ApplyPool(p, PopTake);
    assert multiset(Queue(p.ring)) == multiset{q.held.value} + multiset(Queue(q.ring));
  }

  lemma CompleteKeepsInv(p: Pool, id: nat, n: nat, logSize: nat)
    requires PoolInv(p, n, logSize) && id in p.inFlight && p.recycling.None? && |p.ring.slots| > 0
    ensures PoolInv(DoComplete(p, id), n, logSize)
  {
    hide Inv, Queue, Ids, Apply, Bits.Wrap, Window, Slot;
    var ring := p.ring.(producer := Pushing([id], p.ring.in_));
    assert ring == Apply(p.ring, BeginPush([id])) by { BeginPushOnly(p.ring, [id]); }
    BeginPushKeepsInv(p.ring, [id], logSize);
    SameQueue(p.ring, ring);
    assert multiset(p.inFlight) == multiset(p.inFlight - {id}) + multiset{id};
  }

  lemma BeginPushOnly(r: Ring<nat>, items: seq<nat>)
    requires |r.slots| > 0 && r.producer.ProducerIdle?
    ensures Apply(r, BeginPush(items)) == r.(producer := Pushing(items, r.in_))
  {
  }

  lemma SameQueue(r: Ring<nat>, s: Ring<nat>)
    requires r.pushed == s.pushed && r.popped == s.popped
    ensures Queue(r) == Queue(s)
  {
  }

  lemma SubmitKeepsInv(p: Pool, n: nat, logSize: nat)
    requires PoolInv(p, n, logSize) && p.ring.consumer.ConsumerIdle? && p.held.Some?
    ensures PoolInv(DoSubmit(p), n, logSize)
  {
    hide Inv, Queue;
    var id := p.held.value;
    EachIdOnce(n);
    assert Whereabouts(p)[id] <= 1 by { assert multiset(Ids(n))[id] <= 1; }
    assert id !in p.inFlight;
    assert multiset(p.inFlight + {id}) == multiset(p.inFlight) + multiset{id};
  }

  lemma {:induction false} EachIdOnce(n: nat)
    ensures forall id: nat :: multiset(Ids(n))[id] == if id < n then 1 else 0
  {
    if n > 0 {
      EachIdOnce(n - 1);
      assert Ids(n) == Ids(n - 1) + [n - 1];
    } else {
      assert Ids(n) == [];
    }
  }

  lemma PushStoreKeepsInv(p: Pool, n: nat, logSize: nat)
    requires PoolInv(p, n, logSize)
    requires p.ring.producer.Writing? && p.ring.producer.written == |p.ring.producer.items|
    ensures PoolInv(ApplyPool(p, PushStore), n, logSize)
  {
    hide Inv, Queue, Ids;
    StoreInKeepsInv(p.ring, logSize);
    StoreAppends(p.ring, logSize);
  }

  lemma StoreAppends(r: Ring<nat>, logSize: nat)
    requires Inv(r, logSize) && r.producer.Writing? && r.producer.written == |r.producer.items|
    ensures Queue(Apply(r, StoreIn)) == Queue(r) + r.producer.items
  {
    hide Bits.Wrap, Bits.Pow2, Slot, Window;
  }

  /** The steps that only move one thread along inside the ring code. */
  lemma InnerStepKeepsInv(p: Pool, step: PoolStep, n: nat, logSize: nat)
    requires PoolInv(p, n, logSize) && |p.ring.slots| > 0
    requires step in {PopBegin, PopLoad, PopStore, PushPlace}
    ensures PoolInv(ApplyPool(p, step), n, logSize)
  {
    hide Inv, Queue, Ids, Bits.Wrap, WriteIndex;
    match step {
      case PopBegin => StepKeepsInv(p.ring, BeginPop(1), logSize);
      case PopLoad => StepKeepsInv(p.ring, LoadOwnOut, logSize);
      case PopStore => StepKeepsInv(p.ring, StoreOut, logSize);
      case PushPlace => StepKeepsInv(p.ring, WriteSlot, logSize);
    }
    SameQueue(p.ring, ApplyPool(p, step).ring);
  }

  lemma PoolStepKeepsInv(p: Pool, step: PoolStep, n: nat, logSize: nat)
    requires PoolInv(p, n, logSize) && |p.ring.slots| > 0
    ensures PoolInv(ApplyPool(p, step), n, logSize)
  {
    hide PoolInv, Apply, CanRead, DoSubmit, DoComplete, DoPushLoad;
    if ApplyPool(p, step) != p {
      match step
      case PopTake => PopTakeKeepsInv(p, n, logSize);
      case Submit =>
        assert p.held.Some? by { assert DoSubmit(p) != p; HeldToSubmit(p); }
        SubmitKeepsInv(p, n, logSize);
      case Complete(id) => CompleteKeepsInv(p, id, n, logSize);
      case PushLoad => PushLoadKeepsInv(p, n, logSize);
      case PushStore => PushStoreKeepsInv(p, n, logSize);
      case _ => InnerStepKeepsInv(p, step, n, logSize);
    }
  }

  lemma HeldToSubmit(p: Pool)
    ensures p.held.None? ==> DoSubmit(p) == p
  {
  }

  lemma {:induction false} RunPoolKeepsInv(p: Pool, steps: seq<PoolStep>, n: nat, logSize: nat)
    requires PoolInv(p, n, logSize) && |p.ring.slots| > 0
    ensures PoolInv(RunPool(p, steps), n, logSize)
    decreases |steps|
  {
    hide PoolInv, ApplyPool;
    if steps != [] {
      RunPoolKeepsInv(p, steps[..|steps| - 1], n, logSize);
      PoolStepKeepsInv(RunPool(p, steps[..|steps| - 1]), steps[|steps| - 1], n, logSize);
    }
  }

  // ---------------------------------------------------------------- theorems

  /** In how many of the four places a transfer is. */
  ghost function Places(p: Pool, id: nat): nat {
    Whereabouts(p)[id]
  }

  /** On every interleaving each transfer is in exactly one place, and the ring is never found full. */
  lemma Conservation(n: nat, steps: seq<PoolStep>, logSize: nat)
    requires logSize <= 63 && n <= Bits.Pow2(logSize)
    ensures var p := RunPool(InitPool(n, Bits.Pow2(logSize)), steps);
      && !p.full
      && forall id: nat :: Places(p, id) == if id < n then 1 else 0
  {
    hide Bits.Pow2, Inv, SenderInv, RecyclerInv, Whereabouts, Ids, InitPool;
    var start := InitPool(n, Bits.Pow2(logSize));
    InitPoolInv(n, logSize);
    RunPoolKeepsInv(start, steps, n, logSize);
    EachIdOnce(n);
  }

  /** The order the code insists on: a transfer submitted before `pop_front` has stored `out_`. */
  function SubmitEarly(p: Pool): Pool {
    DoSubmit(p)
  }

  /** With that order swapped, a pool of two transfers in a ring of two finds the ring full. */
  lemma EarlySubmissionFillsRing()
    ensures var taken := ApplyPool(ApplyPool(ApplyPool(InitPool(2, 2), PopBegin), PopLoad), PopTake);
      ApplyPool(ApplyPool(SubmitEarly(taken), Complete(0)), PushLoad).full
  {
    var start := InitPool(2, 2);
    var loaded := ApplyPool(ApplyPool(start, PopBegin), PopLoad);
    assert loaded.ring.consumer == Reading(0, 1, 0);
    var taken := ApplyPool(loaded, PopTake);
    assert taken.held == Some(0) by { SlotSmall(0, 2); }
    var back := ApplyPool(SubmitEarly(taken), Complete(0));
    assert back.ring.producer == Pushing([0], 2);
  }
}
