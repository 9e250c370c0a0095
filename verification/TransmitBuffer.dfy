/**
 The pool of transmit transfers behind one sending thread. Completions arrive from the event thread
 while this code runs; `Completions` stands for any number of them and is placed where the ring is
 looked at again. Front, pop and push are single steps here; TransferPool takes them apart.
 */
module TransmitBuffers {
  import opened Bits
  import opened Common
  import Wire
  import opened Frames
  import RingBuffers
  import TransferPool

  /** The ids in the ring, the transfers by id, the ids in flight and the ids given back to libusb for good. */
  datatype View = View(free: seq<nat>, transfers: seq<Transfer>, inFlight: set<nat>, freed: seq<nat>)

  ghost predicate Conserved(free: seq<nat>, inFlight: set<nat>, freed: seq<nat>, n: nat) {
    multiset(free) + multiset(inFlight) + multiset(freed) == multiset(TransferPool.Ids(n))
  }

  ghost predicate Ok(v: View, n: nat) {
    && |v.transfers| == n
    && Conserved(v.free, v.inFlight, v.freed, n)
    && (forall i :: 0 <= i < |v.free| ==> v.free[i] < n)
    && (forall id :: 0 <= id < n ==> Reusable(v.transfers[id]))
    && (v.free != [] ==> Open(v.transfers[v.free[0]]))
    && FreshFrom(v, 1)
  }

  predicate Reusable(t: Transfer) {
    |t.buffer| == MAX_LENGTH && HeaderConstants(t.buffer)
  }

  /** The free transfers from the k-th on are as the constructor or a completion left them. */
  ghost predicate FreshFrom(v: View, k: nat) {
    forall i :: k <= i < |v.free| && v.free[i] < |v.transfers| ==> Fresh(v.transfers[v.free[i]])
  }

  /** The transfer being filled, if there is one, is for `kind` frames and has collected `bytes`. */
  ghost predicate Filling(v: View, kind: Wire.Byte, bytes: seq<Wire.Byte>) {
    if v.free == [] then bytes == []
    else
      && v.free[0] < |v.transfers|
      && var t := v.transfers[v.free[0]];
         Open(t) && Payload(t) == bytes && (Kind(t) == kind || Fresh(t))
  }

  function Completed(v: View, id: nat): View
    requires id < |v.transfers| && Reusable(v.transfers[id])
  {
    View(v.free + [id], v.transfers[id := Recycle(v.transfers[id])], v.inFlight - {id}, v.freed)
  }

  /** The pool once the front transfer has been sealed and submitted. */
  function Submitted(v: View): View
    requires v.free != [] && v.free[0] < |v.transfers| && Open(v.transfers[v.free[0]])
  {
    var id := v.free[0];
    View(v.free[1..], v.transfers[id := Seal(v.transfers[id])], v.inFlight + {id}, v.freed)
  }

  /** The pool once `size` bytes of the front transfer are claimed. */
  function Claimed(v: View, kind: Wire.Byte, size: nat): View
    requires v.free != [] && v.free[0] < |v.transfers| && Open(v.transfers[v.free[0]])
    requires Accepts(v.transfers[v.free[0]], kind, size)
  {
    v.(transfers := v.transfers[v.free[0] := Claim(v.transfers[v.free[0]], kind, size)])
  }

  lemma ConservedComplete(free: seq<nat>, inFlight: set<nat>, freed: seq<nat>, id: nat, n: nat)
    requires Conserved(free, inFlight, freed, n) && id in inFlight
    ensures id < n && id !in free && |free| < n
    ensures Conserved(free + [id], inFlight - {id}, freed, n)
  {
    TransferPool.EachIdOnce(n);
    assert |TransferPool.Ids(n)| == n;
    hide TransferPool.Ids;
    assert multiset(TransferPool.Ids(n))[id] == multiset(free)[id] + multiset(inFlight)[id] + multiset(freed)[id];
    assert multiset(inFlight) == multiset(inFlight - {id}) + multiset{id};
    assert |multiset(free)| + |multiset(inFlight)| + |multiset(freed)| == |multiset(TransferPool.Ids(n))|;
    assert |inFlight| > 0;
  }

  lemma ConservedSubmit(free: seq<nat>, inFlight: set<nat>, freed: seq<nat>, n: nat)
    requires Conserved(free, inFlight, freed, n) && free != []
    ensures free[0] !in inFlight && free[0] !in free[1..]
    ensures Conserved(free[1..], inFlight + {free[0]}, freed, n)
  {
    TransferPool.EachIdOnce(n);
    hide TransferPool.Ids;
    var id := free[0];
    assert free == [id] + free[1..];
    assert multiset(TransferPool.Ids(n))[id]
        == 1 + multiset(free[1..])[id] + multiset(inFlight)[id] + multiset(freed)[id];
    assert multiset(inFlight + {id}) == multiset(inFlight) + multiset{id};
  }

  lemma CompleteKeepsOk(v: View, id: nat, n: nat, kind: Wire.Byte, bytes: seq<Wire.Byte>)
    requires Ok(v, n) && id in v.inFlight && Filling(v, kind, bytes)
    ensures id < n && |v.free| < n
    ensures Ok(Completed(v, id), n) && Filling(Completed(v, id), kind, bytes)
    ensures FreshFrom(v, 0) ==> FreshFrom(Completed(v, id), 0)
  {
    ConservedComplete(v.free, v.inFlight, v.freed, id, n);
    hide Conserved, Recycle, Open, HeaderConstants;
    var w := Completed(v, id);
    assert forall i :: 0 <= i < |v.free| ==> w.free[i] == v.free[i] && w.transfers[w.free[i]] == v.transfers[v.free[i]];
    if v.free == [] { assert w.free[0] == id; FreshIsEmpty(w.transfers[id]); }
  }

  lemma FreshIsEmpty(t: Transfer)
    requires Fresh(t)
    ensures Open(t) && Payload(t) == []
  {
  }

  /** Submitting the front leaves only fresh transfers in the ring. */
  lemma SubmitKeepsOk(v: View, n: nat)
    requires Ok(v, n) && v.free != []
    ensures Ok(Submitted(v), n) && FreshFrom(Submitted(v), 0)
  {
    ConservedSubmit(v.free, v.inFlight, v.freed, n);
    hide Conserved, Seal, HeaderConstants;
    var w := Submitted(v);
    forall i | 0 <= i < |w.free|
      ensures w.free[i] == v.free[i + 1] && w.transfers[w.free[i]] == v.transfers[v.free[i + 1]]
      ensures Fresh(w.transfers[w.free[i]])
    {
      assert w.free[i] in v.free[1..];
    }
  }

  lemma ClaimKeepsOk(v: View, kind: Wire.Byte, size: nat, n: nat)
    requires Ok(v, n) && v.free != [] && Accepts(v.transfers[v.free[0]], kind, size)
    ensures Ok(Claimed(v, kind, size), n)
  {
    FrontOnce(v.free, v.inFlight, v.freed, n);
    hide Conserved, Claim, HeaderConstants;
  }

  lemma FrontOnce(free: seq<nat>, inFlight: set<nat>, freed: seq<nat>, n: nat)
    requires Conserved(free, inFlight, freed, n) && free != []
    ensures forall i :: 1 <= i < |free| ==> free[i] != free[0]
  {
    ConservedSubmit(free, inFlight, freed, n);
    forall i | 1 <= i < |free|
      ensures free[i] != free[0]
    {
      assert free[i] == free[1..][i - 1];
    }
  }

  /** `f` is the frame of a transfer of this kind that had collected exactly `bytes`. */
  ghost predicate SealedWith(f: seq<Wire.Byte>, kind: Wire.Byte, bytes: seq<Wire.Byte>) {
    exists t :: Open(t) && Kind(t) == kind && Payload(t) == bytes && f == Frame(t)
  }

  class AsyncTransmitBuffer {
    const freeTransfers: RingBuffers.RingBuffer<nat>
    const count: nat
    var transfers: seq<Transfer>
    var inFlight: set<nat>
    var transfersAllBusy: bool
    ghost var submitted: seq<seq<Wire.Byte>>  // every frame handed to libusb, in order
    ghost var freed: seq<nat>            // every transfer given to `libusb_free_transfer`

    ghost predicate Valid()
      reads this, freeTransfers, freeTransfers.storage
    {
      && freeTransfers.Valid()
      && count <= freeTransfers.MaxSize()
      && Ok(Shared(), count)
    }

    ghost function Shared(): View
      reads this, freeTransfers, freeTransfers.storage
      requires freeTransfers.Valid()
    {
      View(freeTransfers.Contents(), transfers, inFlight, freed)
    }

    constructor (allocTransferCount: nat)
      requires allocTransferCount <= TOP
      ensures Valid() && fresh(freeTransfers) && fresh(freeTransfers.storage)
      ensures count == allocTransferCount && submitted == [] && freed == []
      ensures Shared().free == TransferPool.Ids(count) && Shared().inFlight == {} && FreshFrom(Shared(), 0)
    {
      hide TransferPool.Ids;
      var ring := new RingBuffers.RingBuffer<nat>(allocTransferCount);
      var pushed := ring.EmplaceBackMulti(TransferPool.Ids(allocTransferCount));
      FirstIds(allocTransferCount, ring.MaxSize());
      freeTransfers := ring;
      count := allocTransferCount;
      transfers := seq(allocTransferCount, _ => Prefilled());
      inFlight, transfersAllBusy, submitted, freed := {}, false, [], [];
      new;
      PrefilledIsFresh();
      assert freeTransfers.Contents() == TransferPool.Ids(count);
      InitialOk(Shared(), count);
    }

    /** One completion: the callback resets the transfer and puts it back; there is always room. */
    method UsbTransmitComplete(id: nat, ghost kind: Wire.Byte, ghost bytes: seq<Wire.Byte>)
      requires Valid() && id in inFlight && Filling(Shared(), kind, bytes)
      modifies `transfers, `inFlight, freeTransfers`in_, freeTransfers.storage
      ensures Valid() && Filling(Shared(), kind, bytes)
      ensures id < |old(transfers)| && Reusable(old(transfers)[id]) && Shared() == Completed(old(Shared()), id)
      ensures old(FreshFrom(Shared(), 0)) ==> FreshFrom(Shared(), 0)
    {
      hide Ok, Filling, FreshFrom;
      CompleteKeepsOk(Shared(), id, count, kind, bytes);
      OkReusable(Shared(), id, count);
      transfers := transfers[id := Recycle(transfers[id])];
      inFlight := inFlight - {id};
      var pushed := freeTransfers.PushBack(id);
      assert pushed;
    }

    /** Whatever the event thread does meanwhile: any number of completions, in any order. */
    method Completions(ghost kind: Wire.Byte, ghost bytes: seq<Wire.Byte>)
      requires Valid() && Filling(Shared(), kind, bytes)
      modifies `transfers, `inFlight, freeTransfers`in_, freeTransfers.storage
      ensures Valid() && Filling(Shared(), kind, bytes)
      ensures old(FreshFrom(Shared(), 0)) ==> FreshFrom(Shared(), 0)
      ensures |Shared().free| >= |old(Shared().free)| && inFlight <= old(inFlight)
    {
      hide Ok, Filling, FreshFrom;
      var rounds: nat :| rounds >= 0;
      while rounds > 0
        invariant Valid() && Filling(Shared(), kind, bytes)
        invariant old(FreshFrom(Shared(), 0)) ==> FreshFrom(Shared(), 0)
        invariant |Shared().free| >= |old(Shared().free)| && inFlight <= old(inFlight)
      {
        if inFlight != {} {
          var id :| id in inFlight;
          UsbTransmitComplete(id, kind, bytes);
        }
        rounds := rounds - 1;
      }
    }

    method TriggerTransmissionNocheck() returns (sent: bool)
      requires Valid()
      modifies this`transfers, `inFlight, `submitted, freeTransfers`out_
      ensures Valid()
      ensures sent == (old(Shared().free) != [])
      ensures !sent ==> Shared() == old(Shared()) && submitted == old(submitted)
      ensures sent ==> old(CanSubmit()) && Shared() == Submitted(old(Shared()))
                       && submitted == old(submitted) + [Frame(old(transfers[Shared().free[0]]))]
      ensures sent ==> FreshFrom(Shared(), 0)
    {
      hide Ok, FreshFrom, Seal, Frame;
      ghost var before := Shared();
      var popped := freeTransfers.PopFrontMulti(1);
      if popped == [] {
        return false;
      }
      // The ring has been left before the transfer is submitted.
      OkFront(before, count);
      SubmitKeepsOk(before, count);
      var id := popped[0];
      transfers := transfers[id := Seal(transfers[id])];
      submitted := submitted + [Frame(before.transfers[id])];
      inFlight := inFlight + {id};
      return true;
    }

    method TriggerTransmission(allowEmpty: bool) returns (sent: bool)
      requires Valid()
      modifies this`transfers, `inFlight, `submitted, freeTransfers`out_
      ensures Valid()
      ensures sent == (old(Shared().free) != [] && (allowEmpty || old(CanSubmit() && Pending() != [])))
      ensures !sent ==> Shared() == old(Shared()) && submitted == old(submitted)
      ensures sent ==> old(CanSubmit()) && Shared() == Submitted(old(Shared()))
                       && submitted == old(submitted) + [Frame(old(transfers[Shared().free[0]]))]
      ensures sent ==> FreshFrom(Shared(), 0)
    {
      hide Ok, FreshFrom, Seal, Frame;
      OkFront(Shared(), count);
      var front := freeTransfers.Front();
      if front.None? {
        return false;
      }
      if !allowEmpty && transfers[front.value].length <= PREFILL {
        return false;
      }
      sent := TriggerTransmissionNocheck();
    }

    /** The payload collected in the transfer being filled. */
    ghost function Pending(): seq<Wire.Byte>
      reads this, freeTransfers, freeTransfers.storage
      requires freeTransfers.Valid() && CanSubmit()
    {
      Payload(transfers[Shared().free[0]])
    }

    /**
     Claims `size` bytes for a record of the given kind, closing the transfer being filled when they do
     not fit. `closed` is the frame closed on the way. Completions may arrive before every look at the ring.
     */
    method TryFetchBuffer(kind: Wire.Byte, size: nat, ghost filler: Wire.Byte, ghost bytes: seq<Wire.Byte>)
      returns (offset: Option<nat>, ghost closed: seq<seq<Wire.Byte>>)
      requires Valid() && Filling(Shared(), filler, bytes) && filler != 0
      requires kind != 0 && size <= MAX_LENGTH - PREFILL - CRC
      modifies this, freeTransfers, freeTransfers.storage
      ensures Valid() && freed == old(freed)
      ensures submitted == old(submitted) + closed && |closed| <= 1
      ensures closed != [] ==> SealedWith(closed[0], filler, bytes)
      ensures closed != [] ==> filler != kind || PREFILL + |bytes| + size + CRC > MAX_LENGTH
      ensures |Shared().free| + |closed| >= |old(Shared().free)|
      ensures offset.None? ==> Shared().free == [] && transfersAllBusy
      ensures offset.Some? ==> !transfersAllBusy && CanSubmit() && ClaimedFor(
        transfers[Shared().free[0]], kind, size, if closed == [] then bytes else [], offset.value)
    {
      hide Ok, Filling, FreshFrom, SealedWith, ClaimedFor, Open, Accepts, Claim, Conserved;
      hide RingBuffers.RingBuffer.Valid, RingBuffers.RingBuffer.Contents;
      closed := [];
      ghost var filled, filledBy := bytes, filler;
      while true
        invariant Valid() && freed == old(freed) && submitted == old(submitted) + closed && |closed| <= 1
        invariant Filling(Shared(), filledBy, filled) && filledBy != 0
        invariant filled == (if closed == [] then bytes else []) && (closed == [] ==> filledBy == filler)
        invariant closed != [] ==> FreshFrom(Shared(), 0)
        invariant closed != [] ==> SealedWith(closed[0], filler, bytes)
        invariant closed != [] ==> filler != kind || PREFILL + |bytes| + size + CRC > MAX_LENGTH
        invariant |Shared().free| + |closed| >= |old(Shared().free)|
        decreases 1 - |closed|
      {
        Completions(filledBy, filled);
        var front := freeTransfers.Front();
        if front.None? {
          transfersAllBusy := true;
          return None, closed;
        }
        transfersAllBusy := false;
        OkFront(Shared(), count);
        if !Accepts(transfers[front.value], kind, size) {
          ghost var f := SendRefused(kind, size, filledBy, filled);
          closed, filled, filledBy := closed + [f], [], kind;
        } else {
          var offset := ClaimBytes(front.value, kind, size, filledBy, filled);
          return Some(offset), closed;
        }
      }
    }

    /** The front transfer refuses the request and goes out as it is; all free transfers are fresh then. */
    method SendRefused(kind: Wire.Byte, size: nat, ghost filler: Wire.Byte, ghost bytes: seq<Wire.Byte>)
      returns (ghost f: seq<Wire.Byte>)
      requires Valid() && Shared().free != [] && Filling(Shared(), filler, bytes)
      requires size <= MAX_LENGTH - PREFILL - CRC
      requires CanSubmit() && !Accepts(transfers[Shared().free[0]], kind, size)
      modifies this`transfers, `inFlight, `submitted, freeTransfers`out_
      ensures Valid() && submitted == old(submitted) + [f] && SealedWith(f, filler, bytes)
      ensures filler != kind || PREFILL + |bytes| + size + CRC > MAX_LENGTH
      ensures FreshFrom(Shared(), 0) && Filling(Shared(), kind, [])
      ensures |Shared().free| + 1 == |old(Shared().free)|
      ensures !old(FreshFrom(Shared(), 0))
    {
      hide Ok, Filling, FreshFrom, SealedWith, Accepts, Conserved, Frame, Seal;
      RefusedOnce(Shared(), kind, size, filler, bytes);
      f := Frame(transfers[Shared().free[0]]);
      var sent := TriggerTransmissionNocheck();
      AllFreshFilling(Shared(), kind, count);
    }

    /** The bytes behind what the front transfer has collected. */
    method ClaimBytes(id: nat, kind: Wire.Byte, size: nat, ghost filler: Wire.Byte, ghost bytes: seq<Wire.Byte>)
      returns (offset: nat)
      requires Valid() && Shared().free != [] && Filling(Shared(), filler, bytes) && filler != 0 && kind != 0
      requires CanSubmit() && id == Shared().free[0] && Accepts(transfers[id], kind, size)
      modifies this`transfers
      ensures Valid() && CanSubmit() && Shared().free == old(Shared().free)
      ensures ClaimedFor(transfers[id], kind, size, bytes, offset)
    {
      hide Ok, Filling, FreshFrom, ClaimedFor, Accepts, Claim, Conserved;
      ghost var v := Shared();
      var t := transfers[id];
      ClaimFront(v, kind, size, filler, bytes, count);
      transfers := transfers[id := Claim(t, kind, size)];
      assert Shared() == Claimed(v, kind, size);
      offset := t.length;
    }

    /** `fetch_sdo_buffer` or `fetch_pdo_buffer`, then a record constructed in the bytes it returned. */
    method AppendRecord(kind: Wire.Byte, record: seq<Wire.Byte>, ghost bytes: seq<Wire.Byte>)
      returns (ok: bool, ghost closed: seq<seq<Wire.Byte>>)
      requires Valid() && Filling(Shared(), kind, bytes)
      requires kind != 0 && |record| <= MAX_LENGTH - PREFILL - CRC
      modifies this, freeTransfers, freeTransfers.storage
      ensures Valid() && freed == old(freed)
      ensures submitted == old(submitted) + closed && |closed| <= 1
      ensures closed != [] ==> SealedWith(closed[0], kind, bytes) && PREFILL + |bytes| + |record| + CRC > MAX_LENGTH
      ensures |Shared().free| + |closed| >= |old(Shared().free)|
      ensures !ok ==> Shared().free == []
      ensures ok ==> CanSubmit() && Kind(transfers[Shared().free[0]]) == kind
      ensures ok ==> Filling(Shared(), kind, (if closed == [] then bytes else []) + record)
    {
      hide Ok, FreshFrom, SealedWith, Put, Open, Payload;
      var offset;
      offset, closed := TryFetchBuffer(kind, |record|, kind, bytes);
      if offset.None? {
        return false, closed;
      }
      var front := freeTransfers.Front();
      var id := front.value;
      OkFront(Shared(), count);
      ghost var v := Shared();
      PutKeepsOk(v, offset.value, record, count);
      transfers := transfers[id := Put(transfers[id], offset.value, record)];
      assert Shared() == v.(transfers := transfers);
      return true, closed;
    }

    /**
     The destructor: frees what is in the ring, waits for more completions, gives up when `rounds` of
     waiting have passed. What it leaves behind is exactly what is still in flight.
     */
    method Drain(rounds: nat) returns (unreleased: int)
      requires Valid() && freed == []
      modifies this, freeTransfers, freeTransfers.storage
      ensures freeTransfers.Valid() && Conserved(Shared().free, inFlight, freed, count)
      ensures Shared().free == [] && old(Shared().free) <= freed && inFlight <= old(inFlight)
      ensures unreleased == count - |freed| == |inFlight|
      ensures old(inFlight) == {} ==> unreleased == 0
      ensures unreleased == 0 ==> multiset(freed) == multiset(TransferPool.Ids(count))
    {
      hide Ok, Filling, FreshFrom, Conserved, TransferPool.Ids;
      unreleased := count;
      var left := rounds;
      while true
        invariant Valid() && unreleased == count - |freed|
        invariant inFlight <= old(inFlight)
        invariant if left == rounds then freed == [] && Shared().free == old(Shared().free)
                  else old(Shared().free) <= freed
        decreases left
      {
        ghost var v := Shared();
        var popped := freeTransfers.PopFrontMulti(WORD - 1);
        PoppedAll(freeTransfers, v.free, popped);
        freed := freed + popped;
        DrainKeepsOk(v, count);
        unreleased := unreleased - |popped|;
        assert Shared() == v.(free := [], freed := v.freed + v.free);
        LeftInFlight(Shared(), count);
        if unreleased == 0 {
          AllFreed(Shared(), count);
          break;
        }
        if left == 0 {
          break;
        }
        EmptyFilling(Shared(), SDO);
        Completions(SDO, []);
        left := left - 1;
      }
    }

    ghost predicate CanSubmit()
      reads this, freeTransfers, freeTransfers.storage
      requires freeTransfers.Valid()
    {
      var v := Shared();
      v.free != [] && v.free[0] < |v.transfers| && Open(v.transfers[v.free[0]])
    }
  }

  /** `size` bytes at `offset` of an open transfer are claimed behind the payload `bytes`. */
  ghost predicate ClaimedFor(t: Transfer, kind: Wire.Byte, size: nat, bytes: seq<Wire.Byte>, offset: nat)
    requires Open(t)
  {
    && Kind(t) == kind
    && PREFILL <= offset && t.length == offset + size
    && Payload(t)[..offset - PREFILL] == bytes
  }

  lemma ClaimFront(v: View, kind: Wire.Byte, size: nat, filler: Wire.Byte, bytes: seq<Wire.Byte>, n: nat)
    requires Ok(v, n) && Filling(v, filler, bytes) && v.free != []
    requires Accepts(v.transfers[v.free[0]], kind, size)
    ensures Ok(Claimed(v, kind, size), n)
    ensures ClaimedFor(Claim(v.transfers[v.free[0]], kind, size), kind, size, bytes, v.transfers[v.free[0]].length)
  {
    ClaimKeepsOk(v, kind, size, n);
  }

  /** A record that fits an empty frame is refused only by a transfer too full or of another kind, never a fresh one. */
  lemma RefusedOnce(v: View, kind: Wire.Byte, size: nat, filler: Wire.Byte, bytes: seq<Wire.Byte>)
    requires Filling(v, filler, bytes) && v.free != [] && !Accepts(v.transfers[v.free[0]], kind, size)
    requires size <= MAX_LENGTH - PREFILL - CRC
    ensures !FreshFrom(v, 0)
    ensures SealedWith(Frame(v.transfers[v.free[0]]), filler, bytes)
    ensures filler != kind || PREFILL + |bytes| + size + CRC > MAX_LENGTH
  {
    hide Frame, Seal;
  }

  lemma AllFreshFilling(v: View, kind: Wire.Byte, n: nat)
    requires Ok(v, n) && FreshFrom(v, 0)
    ensures Filling(v, kind, [])
  {
  }

  lemma PutKeepsOk(v: View, offset: nat, record: seq<Wire.Byte>, n: nat)
    requires Ok(v, n) && v.free != []
    requires var t := v.transfers[v.free[0]]; PREFILL <= offset && offset + |record| == t.length
    ensures Ok(v.(transfers := v.transfers[v.free[0] := Put(v.transfers[v.free[0]], offset, record)]), n)
  {
    FrontOnce(v.free, v.inFlight, v.freed, n);
    hide Conserved, Put;
  }

  lemma DrainKeepsOk(v: View, n: nat)
    requires Ok(v, n)
    ensures Ok(v.(free := [], freed := v.freed + v.free), n)
  {
  }

  /** With the ring empty, what has not been freed is in flight. */
  lemma LeftInFlight(v: View, n: nat)
    requires Ok(v, n) && v.free == []
    ensures Conserved(v.free, v.inFlight, v.freed, n) && n - |v.freed| == |v.inFlight|
  {
    assert |TransferPool.Ids(n)| == n;
    hide TransferPool.Ids;
    assert |multiset(v.free)| + |multiset(v.inFlight)| + |multiset(v.freed)| == |multiset(TransferPool.Ids(n))|;
  }

  lemma EmptyFilling(v: View, kind: Wire.Byte)
    requires v.free == []
    ensures Filling(v, kind, [])
  {
  }

  /** As many freed transfers as there are transfers: each exactly once. */
  lemma AllFreed(v: View, n: nat)
    requires Ok(v, n) && v.free == [] && |v.freed| == n
    ensures Conserved(v.free, v.inFlight, v.freed, n)
    ensures multiset(v.freed) == multiset(TransferPool.Ids(n))
  {
    assert |TransferPool.Ids(n)| == n;
    hide TransferPool.Ids;
    assert |multiset(v.free)| + |multiset(v.inFlight)| + |multiset(v.freed)| == |multiset(TransferPool.Ids(n))|;
    assert |v.inFlight| == 0;
    assert multiset(v.inFlight) == multiset{};
  }

  lemma PoppedAll(ring: RingBuffers.RingBuffer<nat>, before: seq<nat>, popped: seq<nat>)
    requires ring.Valid() && before == popped + ring.Contents()
    requires |popped| == Min(WORD - 1, |before|) && |before| <= ring.MaxSize()
    ensures popped == before && ring.Contents() == []
  {
    hide Wrap;
    CapacityDividesWord(ring.logSize);
  }

  lemma OkFront(v: View, n: nat)
    requires Ok(v, n)
    ensures |v.transfers| == n
    ensures v.free != [] ==> v.free[0] < n && Open(v.transfers[v.free[0]])
  {
  }

  lemma OkReusable(v: View, id: nat, n: nat)
    requires Ok(v, n) && id < n
    ensures |v.transfers| == n && Reusable(v.transfers[id])
  {
  }

  function Prefilled(): Transfer {
    Transfer(seq(MAX_LENGTH, _ => 0)[0 := 0xAA][1 := 0x55][3 := 0xA0], PREFILL)
  }

  lemma PrefilledIsFresh()
    ensures Fresh(Prefilled())
  {
  }

  lemma FirstIds(n: nat, room: nat)
    requires n <= room
    ensures TransferPool.Ids(n)[..Min(n, room)] == TransferPool.Ids(n)
  {
  }

  lemma InitialOk(v: View, n: nat)
    requires v == View(TransferPool.Ids(n), v.transfers, {}, []) && |v.transfers| == n
    requires forall id :: 0 <= id < n ==> Fresh(v.transfers[id])
    ensures Ok(v, n) && FreshFrom(v, 0)
  {
    assert multiset(v.free) + multiset(v.inFlight) + multiset(v.freed) == multiset(TransferPool.Ids(n));
  }
}
