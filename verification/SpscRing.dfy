/**
 The ring under two threads. Each load of the other side's counter, each slot transfer and each
 counter store is a step of its own, and a run is any list of steps. `pushed` and `popped` record
 what the producer has published and what the consumer has taken.
 */
module SpscRing {
  import opened Bits
  import Common
  import opened RingBuffers

  datatype Producer<T> =
    | ProducerIdle
    | Pushing(items: seq<T>, own: nat)
    | Writing(items: seq<T>, own: nat, written: nat)

  datatype Consumer =
    | ConsumerIdle
    | Popping(limit: nat, seen: nat)
    | Reading(own: nat, count: nat, taken: nat)

  datatype Ring<T> = Ring(
    slots: seq<T>, in_: nat, out_: nat,
    producer: Producer<T>, consumer: Consumer,
    pushed: seq<T>, popped: seq<T>)

  datatype Step<T> =
    | BeginPush(items: seq<T>)  // `emplace_back_multi` loads its own `in_`
    | LoadOut                   // ... and the consumer's `out_`, and fixes the count
    | WriteSlot
    | StoreIn
    | BeginPop(limit: nat)      // `pop_front_multi` loads the producer's `in_`
    | LoadOwnOut                // ... and its own `out_`, and fixes the count
    | ReadSlot
    | StoreOut

  function Init<T>(slots: seq<T>): Ring<T> {
    Ring(slots, 0, 0, ProducerIdle, ConsumerIdle, [], [])
  }

  /** One step; a step whose thread is elsewhere in its code does nothing. */
  function Apply<T>(r: Ring<T>, step: Step<T>): Ring<T>
    requires |r.slots| > 0
  {
    match step
    case BeginPush(items) => if r.producer.ProducerIdle? then r.(producer := Pushing(items, r.in_)) else r
    case LoadOut => if r.producer.Pushing? then ApplyLoadOut(r) else r
    case WriteSlot => if CanWrite(r) then ApplyWriteSlot(r) else r
    case StoreIn => if r.producer.Writing? && r.producer.written == |r.producer.items| then ApplyStoreIn(r) else r
    case BeginPop(limit) => if r.consumer.ConsumerIdle? then r.(consumer := Popping(limit, r.in_)) else r
    case LoadOwnOut => if r.consumer.Popping? then ApplyLoadOwnOut(r) else r
    case ReadSlot => if CanRead(r) then ApplyReadSlot(r) else r
    case StoreOut => if r.consumer.Reading? && r.consumer.taken == r.consumer.count then ApplyStoreOut(r) else r
  }

  function ApplyLoadOut<T>(r: Ring<T>): Ring<T>
    requires r.producer.Pushing?
  {
    var items := r.producer.items;
    var writeable := Wrap(|r.slots| - Wrap(r.producer.own - r.out_));
    var count := if |items| > writeable then writeable else |items|;
    r.(producer := if count == 0 then ProducerIdle else Writing(items[..count], r.producer.own, 0))
  }

  predicate CanWrite<T>(r: Ring<T>) {
    r.producer.Writing? && r.producer.written < Common.Min(|r.producer.items|, |r.slots|)
  }

  function WriteIndex<T>(r: Ring<T>): (s: nat)
    requires CanWrite(r)
    ensures s < |r.slots|
  {
    SlotAt(Slot(r.producer.own, |r.slots|), r.producer.written, |r.slots|)
  }

  function ApplyWriteSlot<T>(r: Ring<T>): Ring<T>
    requires CanWrite(r)
  {
    var p := r.producer;
    r.(slots := r.slots[WriteIndex(r) := p.items[p.written]], producer := p.(written := p.written + 1))
  }

  function ApplyStoreIn<T>(r: Ring<T>): Ring<T>
    requires r.producer.Writing?
  {
    r.(in_ := Wrap(r.producer.own + |r.producer.items|),
       pushed := r.pushed + r.producer.items,
       producer := ProducerIdle)
  }

  function ApplyLoadOwnOut<T>(r: Ring<T>): Ring<T>
    requires r.consumer.Popping?
  {
    var readable := Wrap(r.consumer.seen - r.out_);
    var count := if r.consumer.limit > readable then readable else r.consumer.limit;
    r.(consumer := if count == 0 then ConsumerIdle else Reading(r.out_, count, 0))
  }

  predicate CanRead<T>(r: Ring<T>) {
    r.consumer.Reading? && r.consumer.taken < Common.Min(r.consumer.count, |r.slots|)
  }

  function ReadIndex<T>(r: Ring<T>): (s: nat)
    requires CanRead(r)
    ensures s < |r.slots|
  {
    SlotAt(Slot(r.consumer.own, |r.slots|), r.consumer.taken, |r.slots|)
  }

  function ApplyReadSlot<T>(r: Ring<T>): Ring<T>
    requires CanRead(r)
  {
    r.(popped := r.popped + [r.slots[ReadIndex(r)]],
       consumer := r.consumer.(taken := r.consumer.taken + 1))
  }

  function ApplyStoreOut<T>(r: Ring<T>): Ring<T>
    requires r.consumer.Reading?
  {
    r.(out_ := Wrap(r.consumer.own + r.consumer.count), consumer := ConsumerIdle)
  }

  function Run<T>(r: Ring<T>, steps: seq<Step<T>>): Ring<T>
    requires |r.slots| > 0
    ensures |Run(r, steps).slots| == |r.slots|
    decreases |steps|
  {
    if steps == [] then r
    else Apply(Run(r, steps[..|steps| - 1]), steps[|steps| - 1])
  }

  // ---------------------------------------------------------------- invariant

  /** Elements whose slots the consumer has given back; `out_` is this number wrapped. */
  function Released<T>(r: Ring<T>): int {
    |r.popped| - if r.consumer.Reading? then r.consumer.taken else 0
  }

  ghost predicate CountersAgree<T>(r: Ring<T>) {
    && 0 <= Released(r)
    && r.popped <= r.pushed
    && |r.pushed| - Released(r) <= |r.slots|
    && r.in_ == Wrap(|r.pushed|)
    && r.out_ == Wrap(Released(r))
  }

  ghost predicate SlotsHold<T>(r: Ring<T>)
    requires CountersAgree(r) && |r.slots| > 0
  {
    Window(r.slots, Released(r), |r.pushed| - Released(r)) == r.pushed[Released(r)..]
  }

  ghost predicate ProducerInv<T>(r: Ring<T>)
    requires |r.slots| > 0
  {
    match r.producer
    case ProducerIdle => true
    case Pushing(_, own) => own == r.in_
    case Writing(items, own, written) =>
      && own == r.in_
      && written <= |items|
      && |r.pushed| + |items| - Released(r) <= |r.slots|
      && Window(r.slots, |r.pushed|, written) == items[..written]
  }

  ghost predicate ConsumerInv<T>(r: Ring<T>) {
    match r.consumer
    case ConsumerIdle => true
    case Popping(_, seen) => Wrap(seen - r.out_) <= |r.pushed| - |r.popped|
    case Reading(own, count, taken) => own == r.out_ && taken <= count && Released(r) + count <= |r.pushed|
  }

  ghost predicate Inv<T>(r: Ring<T>, logSize: nat) {
    && logSize <= 63
    && |r.slots| == Pow2(logSize)
    && CountersAgree(r)
    && SlotsHold(r)
    && ProducerInv(r)
    && ConsumerInv(r)
  }

  lemma WindowUpdateOutside<T>(slots: seq<T>, start: nat, n: nat, c: nat, x: T)
    requires |slots| > 0 && start + n <= c < start + |slots|
    ensures Window(slots[Slot(c, |slots|) := x], start, n) == Window(slots, start, n)
  {
    hide Window;
    var after := slots[Slot(c, |slots|) := x];
    forall i | 0 <= i < n
      ensures Window(after, start, n)[i] == Window(slots, start, n)[i]
    {
      DistinctSlots(start + i, c, |slots|);
    }
  }

  lemma WindowUpdateNext<T>(slots: seq<T>, start: nat, n: nat, x: T)
    requires n < |slots|
    ensures Window(slots[Slot(start + n, |slots|) := x], start, n + 1) == Window(slots, start, n) + [x]
  {
    WindowUpdateOutside(slots, start, n, start + n, x);
    hide Slot;
    var after := slots[Slot(start + n, |slots|) := x];
    assert Window(after, start, n + 1) == Window(after, start, n) + [x];
  }

  lemma WindowConcat<T>(slots: seq<T>, start: nat, n: nat, m: nat)
    requires |slots| > 0
    ensures Window(slots, start, n + m) == Window(slots, start, n) + Window(slots, start + n, m)
  {
    hide Slot;
    WindowDrop(slots, start, n + m, n);
    assert Window(slots, start, n + m)[..n] == Window(slots, start, n);
    var w := Window(slots, start, n + m);
    assert w == w[..n] + w[n..];
  }

  /** The slot the two-segment loops reach from a wrapped counter is the one the unwrapped count names. */
  lemma CodeSlot(count: nat, k: nat, logSize: nat)
    requires logSize <= 63 && k < Pow2(logSize)
    ensures SlotAt(Slot(Wrap(count), Pow2(logSize)), k, Pow2(logSize)) == Slot(count + k, Pow2(logSize))
  {
    SlotAtIsMod(Wrap(count), k, Pow2(logSize));
    SlotWrap(count, k, logSize);
  }

  /** The unsigned difference of two wrapped counters is their true distance while it fits. */
  lemma WrappedDistance(a: nat, b: nat)
    requires b <= a < b + WORD
    ensures Wrap(Wrap(a) - Wrap(b)) == a - b
  {
  }

  lemma LoadOutKeepsInv<T>(r: Ring<T>, logSize: nat)
    requires Inv(r, logSize) && r.producer.Pushing?
    ensures Inv(ApplyLoadOut(r), logSize)
  {
    hide Wrap, Pow2, Slot;
    CapacityDividesWord(logSize);
    WrappedDistance(|r.pushed|, Released(r));
    WrapSmall(|r.slots| - (|r.pushed| - Released(r)));
  }

  lemma WrapSmall(n: nat)
    requires n < WORD
    ensures Wrap(n) == n
  {
  }

  lemma WriteSlotKeepsInv<T>(r: Ring<T>, logSize: nat)
    requires Inv(r, logSize) && CanWrite(r)
    ensures Inv(ApplyWriteSlot(r), logSize)
  {
    hide Wrap, Pow2, Slot, SlotAt, Window;
    var p := r.producer;
    var x := p.items[p.written];
    CodeSlot(|r.pushed|, p.written, logSize);
    WindowUpdateOutside(r.slots, Released(r), |r.pushed| - Released(r), |r.pushed| + p.written, x);
    WindowUpdateNext(r.slots, |r.pushed|, p.written, x);
    assert p.items[..p.written + 1] == p.items[..p.written] + [x];
  }

  lemma StoreInKeepsInv<T>(r: Ring<T>, logSize: nat)
    requires Inv(r, logSize) && r.producer.Writing? && r.producer.written == |r.producer.items|
    ensures Inv(ApplyStoreIn(r), logSize)
  {
    hide Wrap, Pow2, Slot, Window;
    var p := r.producer;
    var n := |r.pushed| - Released(r);
    WindowConcat(r.slots, Released(r), n, |p.items|);
    assert p.items[..p.written] == p.items;
    assert (r.pushed + p.items)[Released(r)..] == r.pushed[Released(r)..] + p.items;
    WrapAdd(|r.pushed|, |p.items|);
    if r.consumer.Popping? { assert r.out_ == ApplyStoreIn(r).out_; }
  }

  lemma BeginPopKeepsInv<T>(r: Ring<T>, limit: nat, logSize: nat)
    requires Inv(r, logSize) && r.consumer.ConsumerIdle?
    ensures Inv(r.(consumer := Popping(limit, r.in_)), logSize)
  {
    hide Wrap, Pow2, Slot, Window;
    CapacityDividesWord(logSize);
    WrappedDistance(|r.pushed|, |r.popped|);
  }

  lemma LoadOwnOutKeepsInv<T>(r: Ring<T>, logSize: nat)
    requires Inv(r, logSize) && r.consumer.Popping?
    ensures Inv(ApplyLoadOwnOut(r), logSize)
  {
    hide Wrap, Pow2, Slot, Window;
  }

  lemma ReadSlotKeepsInv<T>(r: Ring<T>, logSize: nat)
    requires Inv(r, logSize) && CanRead(r)
    ensures Inv(ApplyReadSlot(r), logSize)
    ensures r.slots[ReadIndex(r)] == r.pushed[|r.popped|]
  {
    hide Wrap, Pow2, Slot, SlotAt;
    var c := r.consumer;
    CodeSlot(Released(r), c.taken, logSize);
    assert Window(r.slots, Released(r), |r.pushed| - Released(r))[c.taken] == r.pushed[Released(r)..][c.taken];
  }

  lemma StoreOutKeepsInv<T>(r: Ring<T>, logSize: nat)
    requires Inv(r, logSize) && r.consumer.Reading? && r.consumer.taken == r.consumer.count
    ensures Inv(ApplyStoreOut(r), logSize)
  {
    hide Wrap, Pow2, Slot, Window;
    var n := |r.pushed| - Released(r);
    WindowDrop(r.slots, Released(r), n, r.consumer.count);
    WrapAdd(Released(r), r.consumer.count);
    assert r.pushed[Released(r)..][r.consumer.count..] == r.pushed[|r.popped|..];
  }

  lemma StepKeepsInv<T>(r: Ring<T>, step: Step<T>, logSize: nat)
    requires Inv(r, logSize) && |r.slots| > 0
    ensures Inv(Apply(r, step), logSize)
  {
    hide Inv, ApplyLoadOut, ApplyWriteSlot, ApplyStoreIn, ApplyLoadOwnOut, ApplyReadSlot, ApplyStoreOut;
    if Apply(r, step) != r {
      match step
      case BeginPush(items) => BeginPushKeepsInv(r, items, logSize);
      case LoadOut => LoadOutKeepsInv(r, logSize);
      case WriteSlot => WriteSlotKeepsInv(r, logSize);
      case StoreIn => StoreInKeepsInv(r, logSize);
      case BeginPop(limit) => BeginPopKeepsInv(r, limit, logSize);
      case LoadOwnOut => LoadOwnOutKeepsInv(r, logSize);
      case ReadSlot => ReadSlotKeepsInv(r, logSize);
      case StoreOut => StoreOutKeepsInv(r, logSize);
    }
  }

  lemma BeginPushKeepsInv<T>(r: Ring<T>, items: seq<T>, logSize: nat)
    requires Inv(r, logSize) && r.producer.ProducerIdle?
    ensures Inv(r.(producer := Pushing(items, r.in_)), logSize)
  {
    hide Wrap, Pow2, Slot, Window;
  }

  lemma InitInv<T>(slots: seq<T>, logSize: nat)
    requires logSize <= 63 && |slots| == Pow2(logSize)
    ensures Inv(Init(slots), logSize)
  {
    hide Pow2, Slot;
    WrapSmall(0);
  }

  lemma {:induction false} RunKeepsInv<T>(r: Ring<T>, steps: seq<Step<T>>, logSize: nat)
    requires Inv(r, logSize) && |r.slots| > 0
    ensures Inv(Run(r, steps), logSize)
    decreases |steps|
  {
    hide Inv, Apply;
    if steps != [] {
      RunKeepsInv(r, steps[..|steps| - 1], logSize);
      StepKeepsInv(Run(r, steps[..|steps| - 1]), steps[|steps| - 1], logSize);
    }
  }

  // ---------------------------------------------------------------- theorems

  /** On every interleaving the consumer has taken a prefix of what was pushed, at most one capacity behind. */
  lemma FifoSafety<T>(slots: seq<T>, steps: seq<Step<T>>, logSize: nat)
    requires logSize <= 63 && |slots| == Pow2(logSize)
    ensures var r := Run(Init(slots), steps);
      && r.popped <= r.pushed
      && |r.pushed| - |r.popped| <= |slots|
      && Wrap(r.in_ - r.out_) == |r.pushed| - Released(r) <= |slots|
  {
    InitInv(slots, logSize);
    RunKeepsInv(Init(slots), steps, logSize);
    var r := Run(Init(slots), steps);
    CapacityDividesWord(logSize);
    hide Wrap, Apply, SlotsHold, Pow2, ProducerInv, Run;
    WrappedDistance(|r.pushed|, Released(r));
  }

  /** The slots the producer is still to write and those the consumer is still to read, as the code numbers them. */
  ghost function WriteSlots<T>(r: Ring<T>): set<int> {
    if r.producer.Writing? && |r.slots| > 0 then
      set k | r.producer.written <= k < |r.producer.items| :: SlotAt(Slot(r.producer.own, |r.slots|), k, |r.slots|)
    else {}
  }

  ghost function ReadSlots<T>(r: Ring<T>): set<int> {
    if r.consumer.Reading? && |r.slots| > 0 then
      set k | r.consumer.taken <= k < r.consumer.count :: SlotAt(Slot(r.consumer.own, |r.slots|), k, |r.slots|)
    else {}
  }

  lemma WritesAvoidReads<T>(slots: seq<T>, steps: seq<Step<T>>, logSize: nat)
    requires logSize <= 63 && |slots| == Pow2(logSize)
    ensures var r := Run(Init(slots), steps); WriteSlots(r) !! ReadSlots(r)
  {
    InitInv(slots, logSize);
    RunKeepsInv(Init(slots), steps, logSize);
    InvSeparatesSlots(Run(Init(slots), steps), logSize);
  }

  lemma InvSeparatesSlots<T>(r: Ring<T>, logSize: nat)
    requires Inv(r, logSize)
    ensures WriteSlots(r) !! ReadSlots(r)
  {
    hide Wrap, Pow2, Slot, SlotAt, Window;
    if r.producer.Writing? && r.consumer.Reading? {
      var p, c, size := r.producer, r.consumer, |r.slots|;
      forall j: nat, k: nat | p.written <= j < |p.items| && c.taken <= k < c.count
        ensures SlotAt(Slot(p.own, size), j, size) != SlotAt(Slot(c.own, size), k, size)
      {
        CodeSlot(|r.pushed|, j, logSize);
        CodeSlot(Released(r), k, logSize);
        SlotsApart(Released(r) + k, |r.pushed| + j, size);
      }
    }
  }

  lemma SlotsApart(a: nat, b: nat, size: nat)
    requires a < b < a + size
    ensures Slot(a, size) != Slot(b, size)
  {
    DistinctSlots(a, b, size);
  }

  // ---------------------------------------------------------------- refinement

  /** The queue the ring implements. */
  function Queue<T>(r: Ring<T>): seq<T> {
    if |r.popped| <= |r.pushed| then r.pushed[|r.popped|..] else []
  }

  /** One step of a bounded queue: nothing, a block appended at the back, or the head removed. */
  ghost predicate QueueStep<T>(before: seq<T>, after: seq<T>, capacity: nat, taken: seq<T>) {
    || (after == before && taken == [])
    || (before <= after && |after| <= capacity && taken == [])
    || (before != [] && after == before[1..] && taken == [before[0]])
  }

  /** Every step of the ring is a step of the queue; `taken` is what the consumer's functor received. */
  lemma RefinesQueue<T>(slots: seq<T>, steps: seq<Step<T>>, step: Step<T>, logSize: nat)
    requires logSize <= 63 && |slots| == Pow2(logSize)
    ensures var r := Run(Init(slots), steps);
      && r.popped <= Apply(r, step).popped
      && QueueStep(Queue(r), Queue(Apply(r, step)), |slots|, Apply(r, step).popped[|r.popped|..])
  {
    InitInv(slots, logSize);
    RunKeepsInv(Init(slots), steps, logSize);
    InvRefinesQueue(Run(Init(slots), steps), step, logSize);
  }

  lemma InvRefinesQueue<T>(r: Ring<T>, step: Step<T>, logSize: nat)
    requires Inv(r, logSize)
    ensures r.popped <= Apply(r, step).popped
    ensures QueueStep(Queue(r), Queue(Apply(r, step)), |r.slots|, Apply(r, step).popped[|r.popped|..])
  {
    hide Wrap, Pow2, Slot, SlotAt, Window;
    if step.ReadSlot? && CanRead(r) {
      ReadSlotKeepsInv(r, logSize);
      assert Queue(Apply(r, step)) == Queue(r)[1..];
    } else if step.StoreIn? && Apply(r, step) != r {
      assert Queue(Apply(r, step)) == Queue(r) + r.producer.items;
    } else {
      assert Apply(r, step).popped == r.popped && Apply(r, step).pushed == r.pushed;
    }
  }
}
