/**
 `DataOperator::init_storage_info` over any tree of device classes: every datum of every node is given its
 storage unit and its wire key, and the index map is filled on the way.
 */
module Devices {
  import Bits
  import opened Wire
  import opened StorageUnits
  import opened Layout
  import Handlers

  datatype Kind = Plain | ControlWord | Position | UpperLimit | LowerLimit

  /** A datum as its class declares it. */
  datatype Datum = Datum(index: UInt16, sub: Byte, size: Size, kind: Kind)

  /** A device class; child `j` sits `subIndex + j * subStep` above its parent on the wire. */
  datatype Device =
    | Simple(datas: seq<Datum>)
    | Compound(datas: seq<Datum>, subCount: nat, sub: Device, subIndex: nat, subStep: nat)

  /** Where a node is: its storage and wire offsets, and the two words that say which sibling it is among how many. */
  datatype Place = Place(storage: nat, index: UInt16, i: nat, shape: nat)

  const ROOT := Place(0, 0, 0, 0)

  // 2^32, the number of values of `i` and `shape`
  const WORD32: nat := 0x1_0000_0000

  function LevelOf(d: Device): Level {
    match d
    case Simple(datas) => Leaf(|datas|)
    case Compound(datas, subCount, sub, _, _) => Branch(|datas|, subCount, LevelOf(sub))
  }

  function SubPlace(d: Device, p: Place, j: nat): Place
    requires d.Compound?
  {
    Place(SubOffset(LevelOf(d), p.storage, j),
          (p.index + d.subIndex + j * d.subStep) % 0x1_0000,
          (p.i * 0x100 % WORD32 + j) % WORD32,
          Bits.Or(p.shape * 0x100 % WORD32, d.subCount))
  }

  // ---------------------------------------------------------------- one datum

  predicate Reversed(i: nat) {
    i % 0x100 == 0 && i != 0
  }

  function PositionPolicy(i: nat): set<Policy> {
    if Reversed(i) then {POSITION, POSITION_REVERSED} else {POSITION}
  }

  /** The `info` of each data class; the two limits trade sub-indices on a reversed joint. */
  function Info(d: Datum, i: nat): StorageInfo {
    match d.kind
    case Plain => StorageInfo(Key(d.index, d.sub), d.size, {})
    case ControlWord => StorageInfo(Key(d.index, d.sub), Size2, {CONTROL_WORD})
    case Position => StorageInfo(Key(d.index, d.sub), Size4, PositionPolicy(i))
    case UpperLimit => StorageInfo(Key(d.index, if Reversed(i) then 28 else d.sub), Size4, PositionPolicy(i))
    case LowerLimit => StorageInfo(Key(d.index, if Reversed(i) then 27 else d.sub), Size4, PositionPolicy(i))
  }

  /** The number of a grandchild among all grandchildren: its bit in the mask. */
  function Flat(p: Place): nat {
    (p.i / 0x100 % 0x100) * (p.shape % 0x100) + p.i % 0x100
  }

  predicate MaskBit(mask: nat, bit: nat) {
    mask / Bits.Pow2(bit) % 2 == 1
  }

  /** The mask of a set of bit numbers below `n`: the sum of their powers of two. */
  function MaskOf(bits: set<nat>, n: nat): (mask: nat)
    ensures mask < Bits.Pow2(n)
  {
    if n == 0 then 0 else MaskOf(bits, n - 1) + if n - 1 in bits then Bits.Pow2(n - 1) else 0
  }

  /** A bit is found set in the mask exactly when it is one of the numbers. */
  lemma {:induction false} MaskOfBits(bits: set<nat>, n: nat, bit: nat)
    ensures MaskBit(MaskOf(bits, n), bit) <==> bit < n && bit in bits
  {
    hide Bits.Pow2;
    if bit >= n {
      Bits.Pow2Order(n, bit);
      Bits.ModSplit(MaskOf(bits, n), 0, MaskOf(bits, n), Bits.Pow2(bit));
    } else if bit == n - 1 {
      Bits.ModSplit(MaskOf(bits, n), if bit in bits then 1 else 0, MaskOf(bits, bit), Bits.Pow2(bit));
    } else {
      MaskOfBits(bits, n - 1, bit);
      if n - 1 in bits { HigherBit(MaskOf(bits, n - 1), bit, n - 1); }
    }
  }

  /** Adding a higher power of two leaves a bit alone. */
  lemma HigherBit(mask: nat, bit: nat, high: nat)
    requires bit < high
    ensures MaskBit(mask + Bits.Pow2(high), bit) <==> MaskBit(mask, bit)
  {
    var p, half := Bits.Pow2(bit), Bits.Pow2(high - bit - 1);
    Bits.Pow2Add(bit, high - bit);
    assert Bits.Pow2(high - bit) == 2 * half;
    hide Bits.Pow2;
    EvenMultiple(mask, p, half);
  }

  lemma EvenMultiple(mask: nat, p: nat, half: nat)
    requires p > 0
    ensures (mask + p * (2 * half)) / p % 2 == mask / p % 2
  {
    var q := mask / p;
    assert mask == q * p + mask % p;
    assert (q + 2 * half) * p == q * p + p * (2 * half);
    Bits.ModSplit(mask + p * (2 * half), q + 2 * half, mask % p, p);
    Bits.ModSplit(q + 2 * half, q / 2 + half, q % 2, 2);
  }

  /** Every mask of `n` bits is the mask of some set. */
  lemma {:induction false} EveryMask(mask: nat, n: nat) returns (bits: set<nat>)
    requires mask < Bits.Pow2(n)
    ensures MaskOf(bits, n) == mask && forall bit :: bit in bits ==> bit < n
  {
    if n == 0 {
      bits := {};
    } else if mask < Bits.Pow2(n - 1) {
      bits := EveryMask(mask, n - 1);
    } else {
      var low := EveryMask(mask - Bits.Pow2(n - 1), n - 1);
      bits := low + {n - 1};
      SameMask(low, bits, n - 1);
    }
  }

  lemma {:induction false} SameMask(a: set<nat>, b: set<nat>, n: nat)
    requires forall bit :: 0 <= bit < n ==> (bit in a <==> bit in b)
    ensures MaskOf(a, n) == MaskOf(b, n)
  {
    if n > 0 { SameMask(a, b, n - 1); }
  }

  /** The empty mask, and the mask of one bit. */
  lemma {:induction false} SmallMasks(bit: nat, n: nat)
    ensures MaskOf({}, n) == 0 && MaskOf({bit}, n) == if bit < n then Bits.Pow2(bit) else 0
  {
    hide Bits.Pow2;
    if n > 0 { SmallMasks(bit, n - 1); }
  }

  /** What `StorageInitializer` makes of a datum at a place. */
  function Placed(d: Datum, p: Place, mask: nat): StorageInfo {
    var info := Info(d, p.i);
    StorageInfo(Key((info.key.index + p.index) % 0x1_0000, info.key.sub), info.size,
                if p.shape != 0 && MaskBit(mask, Flat(p)) then info.policy + {MASKED} else info.policy)
  }

  // ---------------------------------------------------------------- all calls

  /** One call of `Handler::init_storage_info`. */
  datatype Call = Call(id: nat, info: StorageInfo)

  function OwnCalls(d: Device, p: Place, mask: nat): seq<Call> {
    seq(|d.datas|, n requires 0 <= n < |d.datas| => Call(p.storage + n, Placed(d.datas[n], p, mask)))
  }

  function Calls(d: Device, p: Place, mask: nat): seq<Call>
    decreases d, 1
  {
    OwnCalls(d, p, mask) + if d.Compound? then SubCalls(d, p, mask, d.subCount) else []
  }

  function SubCalls(d: Device, p: Place, mask: nat, n: nat): seq<Call>
    requires d.Compound?
    decreases d, 0, n
  {
    if n == 0 then [] else SubCalls(d, p, mask, n - 1) + Calls(d.sub, SubPlace(d, p, n - 1), mask)
  }

  ghost predicate IdsWithin(calls: seq<Call>, low: nat, high: nat) {
    forall c :: c in calls ==> low <= c.id < high
  }

  /** What the calls leave in the storage array and in the index map. */
  function UnitsAfter(us: seq<StorageUnit>, calls: seq<Call>): (us': seq<StorageUnit>)
    requires IdsWithin(calls, 0, |us|)
    ensures |us'| == |us|
  {
    if calls == [] then us
    else
      var c, before := calls[|calls| - 1], UnitsAfter(us, calls[..|calls| - 1]);
      before[c.id := before[c.id].(info := c.info)]
  }

  function IndexAfter(index: map<Key, nat>, calls: seq<Call>): map<Key, nat> {
    if calls == [] then index
    else IndexAfter(index, calls[..|calls| - 1])[calls[|calls| - 1].info.key := calls[|calls| - 1].id]
  }

  lemma {:induction false} AfterMore(us: seq<StorageUnit>, index: map<Key, nat>, calls: seq<Call>, more: seq<Call>)
    requires IdsWithin(calls, 0, |us|) && IdsWithin(more, 0, |us|)
    ensures IdsWithin(calls + more, 0, |us|)
    ensures UnitsAfter(us, calls + more) == UnitsAfter(UnitsAfter(us, calls), more)
    ensures IndexAfter(index, calls + more) == IndexAfter(IndexAfter(index, calls), more)
  {
    if more == [] {
      assert calls + more == calls;
    } else {
      AfterMore(us, index, calls, more[..|more| - 1]);
      assert (calls + more)[..|calls + more| - 1] == calls + more[..|more| - 1];
    }
  }

  // ---------------------------------------------------------------- which ids

  function IdsOf(calls: seq<Call>): seq<nat> {
    seq(|calls|, n requires 0 <= n < |calls| => calls[n].id)
  }

  /** The calls name the tree's ids, each once and in order. */
  lemma {:induction false} CallsCoverIds(d: Device, p: Place, mask: nat)
    ensures IdsOf(Calls(d, p, mask)) == AllIds(LevelOf(d), p.storage)
    decreases d, 1
  {
    hide SubCalls, SubPlace, Placed;
    assert IdsOf(OwnCalls(d, p, mask)) == Range(p.storage, |d.datas|);
    if d.Compound? {
      SubCallsCoverIds(d, p, mask, d.subCount);
      IdsConcat(OwnCalls(d, p, mask), SubCalls(d, p, mask, d.subCount));
    } else {
      assert Calls(d, p, mask) == OwnCalls(d, p, mask);
    }
  }

  lemma {:induction false} SubCallsCoverIds(d: Device, p: Place, mask: nat, n: nat)
    requires d.Compound?
    ensures IdsOf(SubCalls(d, p, mask, n)) == SubIds(LevelOf(d), p.storage, n)
    decreases d, 0, n
  {
    hide Calls, AllIds;
    if n > 0 {
      SubCallsCoverIds(d, p, mask, n - 1);
      CallsCoverIds(d.sub, SubPlace(d, p, n - 1), mask);
      IdsConcat(SubCalls(d, p, mask, n - 1), Calls(d.sub, SubPlace(d, p, n - 1), mask));
    }
  }

  lemma IdsConcat(a: seq<Call>, b: seq<Call>)
    ensures IdsOf(a + b) == IdsOf(a) + IdsOf(b)
  {
  }

  /** The n-th call is for the n-th id of the tree. */
  lemma CallIds(d: Device, p: Place, mask: nat)
    ensures |Calls(d, p, mask)| == DataCount(LevelOf(d))
    ensures forall n :: 0 <= n < |Calls(d, p, mask)| ==> Calls(d, p, mask)[n].id == p.storage + n
    ensures IdsWithin(Calls(d, p, mask), p.storage, p.storage + DataCount(LevelOf(d)))
  {
    hide Calls, DataCount, AllIds;
    CallsCoverIds(d, p, mask);
    IdsTile(LevelOf(d), p.storage);
    var calls := Calls(d, p, mask);
    assert |IdsOf(calls)| == |calls|;
    forall n | 0 <= n < |calls|
      ensures calls[n].id == p.storage + n
    {
      assert IdsOf(calls)[n] == p.storage + n;
    }
  }

  // ---------------------------------------------------------------- which infos

  /** The info of a datum reached through a path of children. */
  function InfoAt(d: Device, p: Place, mask: nat, a: Address): StorageInfo
    requires Exists(LevelOf(d), a)
    decreases |a.path|
  {
    if a.path == [] then Placed(d.datas[a.index], p, mask)
    else InfoAt(d.sub, SubPlace(d, p, a.path[0]), mask, Address(a.path[1..], a.index))
  }

  /** Initialisation gives the unit that `sub` calls address by this path exactly that datum's info. */
  lemma {:induction false} CallFor(d: Device, p: Place, mask: nat, a: Address)
    requires Exists(LevelOf(d), a)
    ensures Call(IdOf(LevelOf(d), p.storage, a), InfoAt(d, p, mask, a)) in Calls(d, p, mask)
    decreases |a.path|
  {
    hide Placed, SubPlace, DataCount;
    if a.path == [] {
      assert OwnCalls(d, p, mask)[a.index] == Call(p.storage + a.index, Placed(d.datas[a.index], p, mask));
    } else {
      SubPlaceStorage(d, p, a.path[0]);
      var c := Call(IdOf(LevelOf(d), p.storage, a), InfoAt(d, p, mask, a));
      CallFor(d.sub, SubPlace(d, p, a.path[0]), mask, Address(a.path[1..], a.index));
      ChildCall(d, p, mask, d.subCount, a.path[0], c);
    }
  }

  lemma SubPlaceStorage(d: Device, p: Place, j: nat)
    requires d.Compound?
    ensures SubPlace(d, p, j).storage == SubOffset(LevelOf(d), p.storage, j)
  {
  }

  lemma {:induction false} ChildCall(d: Device, p: Place, mask: nat, n: nat, j: nat, c: Call)
    requires d.Compound? && j < n && c in Calls(d.sub, SubPlace(d, p, j), mask)
    ensures c in SubCalls(d, p, mask, n)
    decreases n
  {
    hide Calls, SubPlace;
    if j < n - 1 { ChildCall(d, p, mask, n - 1, j, c); }
  }

  // ---------------------------------------------------------------- after all calls

  ghost predicate DistinctIds(calls: seq<Call>) {
    forall m, n :: 0 <= m < n < |calls| ==> calls[m].id != calls[n].id
  }

  /** With distinct ids every call's info stands at the end. */
  lemma {:induction false} InfoStands(us: seq<StorageUnit>, calls: seq<Call>, n: nat)
    requires IdsWithin(calls, 0, |us|) && DistinctIds(calls) && n < |calls|
    ensures UnitsAfter(us, calls)[calls[n].id] == us[calls[n].id].(info := calls[n].info)
  {
    var before := calls[..|calls| - 1];
    if n < |calls| - 1 {
      InfoStands(us, before, n);
      assert before[n] == calls[n];
    } else {
      Untouched(us, before, calls[n].id);
    }
  }

  lemma {:induction false} Untouched(us: seq<StorageUnit>, calls: seq<Call>, id: nat)
    requires IdsWithin(calls, 0, |us|) && id < |us| && forall c :: c in calls ==> c.id != id
    ensures UnitsAfter(us, calls)[id] == us[id]
  {
    if calls != [] { Untouched(us, calls[..|calls| - 1], id); }
  }

  /** Under one key the map keeps the last call. */
  lemma {:induction false} LastCallWins(index: map<Key, nat>, calls: seq<Call>, n: nat)
    requires n < |calls|
    requires forall m :: n < m < |calls| ==> calls[m].info.key != calls[n].info.key
    ensures calls[n].info.key in IndexAfter(index, calls)
    ensures IndexAfter(index, calls)[calls[n].info.key] == calls[n].id
  {
    if n < |calls| - 1 {
      assert calls[..|calls| - 1][n] == calls[n];
      LastCallWins(index, calls[..|calls| - 1], n);
    }
  }

  /** Nothing else is in the map. */
  lemma {:induction false} OnlyCalledKeys(calls: seq<Call>, key: Key) returns (n: nat)
    requires key in IndexAfter(map[], calls)
    ensures n < |calls| && calls[n].info.key == key && IndexAfter(map[], calls)[key] == calls[n].id
  {
    if calls[|calls| - 1].info.key == key {
      n := |calls| - 1;
    } else {
      n := OnlyCalledKeys(calls[..|calls| - 1], key);
    }
  }

  // ---------------------------------------------------------------- the code

  method InitDatas(h: Handlers.Handler, d: Device, p: Place, mask: nat)
    requires p.storage + |d.datas| <= h.storage.Length
    modifies h`index, h.storage
    ensures IdsWithin(OwnCalls(d, p, mask), 0, h.storage.Length)
    ensures h.storage[..] == UnitsAfter(old(h.storage[..]), OwnCalls(d, p, mask))
    ensures h.index == IndexAfter(old(h.index), OwnCalls(d, p, mask))
  {
    hide Placed, UnitsAfter, IndexAfter;
    ghost var calls := OwnCalls(d, p, mask);
    NoCalls(h.storage[..], h.index);
    assert calls[..0] == [];
    for n := 0 to |d.datas|
      invariant h.storage[..] == UnitsAfter(old(h.storage[..]), calls[..n])
      invariant h.index == IndexAfter(old(h.index), calls[..n])
    {
      OneMoreCall(old(h.storage[..]), old(h.index), calls, n);
      h.InitStorageInfo(p.storage + n, Placed(d.datas[n], p, mask));
    }
    assert calls[..|d.datas|] == calls;
  }

  lemma OneMoreCall(us: seq<StorageUnit>, index: map<Key, nat>, calls: seq<Call>, n: nat)
    requires n < |calls| && IdsWithin(calls, 0, |us|)
    ensures var c, before := calls[n], UnitsAfter(us, calls[..n]);
      && UnitsAfter(us, calls[..n + 1]) == before[c.id := before[c.id].(info := c.info)]
      && IndexAfter(index, calls[..n + 1]) == IndexAfter(index, calls[..n])[c.info.key := c.id]
  {
    assert calls[..n + 1][..n] == calls[..n];
  }

  /** `init_storage_info`: the node's own data, then every child with its own place. */
  method InitStorageInfo(h: Handlers.Handler, d: Device, p: Place, mask: nat)
    requires p.storage + DataCount(LevelOf(d)) <= h.storage.Length
    modifies h`index, h.storage
    ensures IdsWithin(Calls(d, p, mask), 0, h.storage.Length)
    ensures h.storage[..] == UnitsAfter(old(h.storage[..]), Calls(d, p, mask))
    ensures h.index == IndexAfter(old(h.index), Calls(d, p, mask))
    decreases d
  {
    hide SubPlace, UnitsAfter, IndexAfter, IdsWithin, OwnCalls;
    ghost var us, index, own := h.storage[..], h.index, OwnCalls(d, p, mask);
    OwnFits(d);
    InitDatas(h, d, p, mask);
    if d.Compound? {
      var i, shape := p.i * 0x100 % WORD32, Bits.Or(p.shape * 0x100 % WORD32, d.subCount);
      NoCalls(UnitsAfter(us, own), IndexAfter(index, own));
      for j := 0 to d.subCount
        invariant i == (p.i * 0x100 % WORD32 + j) % WORD32
        invariant IdsWithin(SubCalls(d, p, mask, j), 0, h.storage.Length)
        invariant h.storage[..] == UnitsAfter(UnitsAfter(us, own), SubCalls(d, p, mask, j))
        invariant h.index == IndexAfter(IndexAfter(index, own), SubCalls(d, p, mask, j))
      {
        PlaceOfChild(d, p, j, i, shape);
        var at := Place(SubOffset(LevelOf(d), p.storage, j),
                        (p.index + d.subIndex + j * d.subStep) % 0x1_0000, i, shape);
        ChildFits(LevelOf(d), j);
        InitStorageInfo(h, d.sub, at, mask);
        AfterMore(UnitsAfter(us, own), IndexAfter(index, own), SubCalls(d, p, mask, j), Calls(d.sub, at, mask));
        i := (i + 1) % WORD32;
      }
      AfterMore(us, index, own, SubCalls(d, p, mask, d.subCount));
    } else {
      assert Calls(d, p, mask) == own;
    }
  }

  lemma NoCalls(us: seq<StorageUnit>, index: map<Key, nat>)
    ensures IdsWithin([], 0, |us|) && UnitsAfter(us, []) == us && IndexAfter(index, []) == index
  {
  }

  lemma OwnFits(d: Device)
    ensures |d.datas| <= DataCount(LevelOf(d))
  {
    if d.Compound? { Bits.MulMonotone(0, d.subCount, DataCount(LevelOf(d.sub))); }
  }

  lemma PlaceOfChild(d: Device, p: Place, j: nat, i: nat, shape: nat)
    requires d.Compound?
    requires i == (p.i * 0x100 % WORD32 + j) % WORD32 && shape == Bits.Or(p.shape * 0x100 % WORD32, d.subCount)
    ensures SubPlace(d, p, j)
         == Place(SubOffset(LevelOf(d), p.storage, j), (p.index + d.subIndex + j * d.subStep) % 0x1_0000, i, shape)
    ensures (i + 1) % WORD32 == (p.i * 0x100 % WORD32 + (j + 1)) % WORD32
  {
    hide SubOffset, LevelOf, Bits.Or;
    NextI(p.i * 0x100 % WORD32, j);
  }

  lemma NextI(start: nat, j: nat)
    ensures ((start + j) % WORD32 + 1) % WORD32 == (start + (j + 1)) % WORD32
  {
  }
}
