/** Where a reply goes on an initialised hand: `find_storage_by_index` against the layout. */
module Dispatch {
  import Bits
  import opened Common
  import opened Wire
  import opened StorageUnits
  import opened Layout
  import RingBuffers
  import TransmitBuffers
  import Handlers
  import opened Devices
  import opened HandDevice
  import opened Completions
  import opened Deadlines
  import Worlds

  // ---------------------------------------------------------------- an inverse of the wire keys

  /** The last datum of a table with this index and sub-index. */
  function Search(datas: seq<Datum>, index: nat, sub: nat): (n: Option<nat>)
    ensures n.Some? ==> n.value < |datas| && datas[n.value].index == index && datas[n.value].sub == sub
  {
    if datas == [] then None
    else if datas[|datas| - 1].index == index && datas[|datas| - 1].sub == sub then Some(|datas| - 1)
    else Search(datas[..|datas| - 1], index, sub)
  }

  predicate Same(c: Datum, d: Datum) {
    c.index == d.index && c.sub == d.sub
  }

  lemma {:induction false} SearchFinds(datas: seq<Datum>, n: nat)
    requires n < |datas| && forall m :: n < m < |datas| ==> !Same(datas[m], datas[n])
    ensures Search(datas, datas[n].index, datas[n].sub) == Some(n)
  {
    if n < |datas| - 1 {
      assert !Same(datas[|datas| - 1], datas[n]);
      assert datas[..|datas| - 1][n] == datas[n];
      SearchFinds(datas[..|datas| - 1], n);
    }
  }

  function ToAddress(path: seq<nat>, n: Option<nat>): Option<Address> {
    match n
    case None => None
    case Some(n) => Some(Address(path, n))
  }

  /** The datum a wire key belongs to, computed from the key alone. */
  function Locate(fingers: nat, joints: nat, key: Key): Option<Address> {
    if key.index >= 0x5000 then ToAddress([], Search(HAND_DATAS, key.index, key.sub))
    else if key.index < 0x2000 then None
    else
      var f, j, base := (key.index - 0x2000) / 0x800, key.index % 0x800 / 0x100, key.index % 0x100;
      if f < fingers && j < joints then
        ToAddress([f, j], Search(JOINT_DATAS, base, Swap(Mirrored(f, j), base, key.sub)))
      else None
  }

  const R_PDO := Address([], R_PDO_ID)
  const T_PDO := Address([], T_PDO_ID)

  lemma JointDatasDistinct(m: nat, n: nat)
    requires m < n < 14
    ensures |JOINT_DATAS| == 14 && !Same(JOINT_DATAS[n], JOINT_DATAS[m])
  {
  }

  lemma HandDatasDistinct(m: nat, n: nat)
    requires m < n < 12
    ensures |HAND_DATAS| == 12 && (Same(HAND_DATAS[n], HAND_DATAS[m]) <==> m == R_PDO_ID && n == T_PDO_ID)
  {
  }

  lemma SplitIndex(f: nat, j: nat, base: nat)
    requires f < 6 && j < 8 && base < 0x100
    ensures var index := 0x2000 + f * 0x800 + j * 0x100 + base;
      index < 0x5000 && (index - 0x2000) / 0x800 == f && index % 0x800 / 0x100 == j && index % 0x100 == base
  {
    var index := 0x2000 + f * 0x800 + j * 0x100 + base;
    assert index % 0x800 == j * 0x100 + base;
  }

  lemma SwapTwice(mirrored: bool, base: nat, sub: Byte)
    ensures Swap(mirrored, base, Swap(mirrored, base, sub)) == sub
  {
  }

  lemma LocateJoint(fingers: nat, joints: nat, f: nat, j: nat, n: nat)
    requires Fits(fingers, joints) && f < fingers && j < joints && n < 14
    ensures |JOINT_DATAS| == 14 && JOINT_DATAS[n].index < 0x100
    ensures Locate(fingers, joints, JointKey(f, j, JOINT_DATAS[n])) == Some(Address([f, j], n))
  {
    JointDatasGood(n);
    var d := JOINT_DATAS[n];
    forall m | n < m < 14
      ensures !Same(JOINT_DATAS[m], d)
    {
      JointDatasDistinct(n, m);
    }
    SplitIndex(f, j, d.index);
    hide JOINT_DATAS, HAND_DATAS, Swap, Mirrored, Search, Same;
    SearchFinds(JOINT_DATAS, n);
    SwapTwice(Mirrored(f, j), d.index, d.sub);
  }

  lemma LocateHand(fingers: nat, joints: nat, n: nat)
    requires n < 12
    ensures |HAND_DATAS| == 12 && HAND_DATAS[n].index >= 0x5000
    ensures Locate(fingers, joints, Key(HAND_DATAS[n].index, HAND_DATAS[n].sub))
         == Some(if n == R_PDO_ID then T_PDO else Address([], n))
  {
    assert |HAND_DATAS| == 12 && HAND_DATAS[n].index >= 0x5000;
    if n == R_PDO_ID { HandDatasDistinct(n, T_PDO_ID); }
    var k := if n == R_PDO_ID then T_PDO_ID else n;
    forall m | k < m < 12
      ensures !Same(HAND_DATAS[m], HAND_DATAS[k])
    {
      HandDatasDistinct(k, m);
    }
    hide JOINT_DATAS, HAND_DATAS, Search;
    SearchFinds(HAND_DATAS, k);
  }

  ghost function HandTree(fingers: nat, joints: nat): Level {
    LevelOf(Hand(fingers, joints))
  }

  /** The key a unit was given leads back to its datum, except that RPdoId's leads to TPdoId. */
  lemma KeyLocates(fingers: nat, joints: nat, mask: nat, a: Address)
    requires Fits(fingers, joints) && Exists(HandTree(fingers, joints), a)
    ensures Locate(fingers, joints, InfoAt(Hand(fingers, joints), ROOT, mask, a).key)
      == Some(if a == R_PDO then T_PDO else a)
  {
    hide Locate, InfoAt, LevelOf, Exists, JOINT_DATAS, HAND_DATAS, JointPolicy, MaskBit;
    HandAddresses(fingers, joints, a);
    if a.path == [] {
      HandUnit(fingers, joints, mask, a.index);
      LocateHand(fingers, joints, a.index);
    } else {
      var f, j := a.path[0], a.path[1];
      assert a == Address([f, j], a.index);
      JointUnit(fingers, joints, mask, f, j, a.index);
      LocateJoint(fingers, joints, f, j, a.index);
    }
  }

  /** Whatever is located exists and has that key. */
  lemma LocatedHasKey(fingers: nat, joints: nat, mask: nat, key: Key)
    requires Fits(fingers, joints) && Locate(fingers, joints, key).Some?
    ensures var a := Locate(fingers, joints, key).value;
      Exists(HandTree(fingers, joints), a) && InfoAt(Hand(fingers, joints), ROOT, mask, a).key == key && a != R_PDO
  {
    hide InfoAt, LevelOf, Exists, JOINT_DATAS, HAND_DATAS, JointPolicy, MaskBit, Swap, Search;
    var a := Locate(fingers, joints, key).value;
    TableSizes();
    if key.index >= 0x5000 {
      HandUnit(fingers, joints, mask, a.index);
      LocateHand(fingers, joints, a.index);
    } else {
      var f, j, base := (key.index - 0x2000) / 0x800, key.index % 0x800 / 0x100, key.index % 0x100;
      JointUnit(fingers, joints, mask, f, j, a.index);
      SwapTwice(Mirrored(f, j), base, key.sub);
      JoinIndex(key.index);
    }
  }

  lemma TableSizes()
    ensures |HAND_DATAS| == 12 && |JOINT_DATAS| == 14
  {
  }

  lemma JoinIndex(index: nat)
    requires 0x2000 <= index < 0x5000
    ensures 0x2000 + (index - 0x2000) / 0x800 * 0x800 + index % 0x800 / 0x100 * 0x100 + index % 0x100 == index
  {
  }

  // ---------------------------------------------------------------- the index map

  function HandCalls(fingers: nat, joints: nat, mask: nat): seq<Call> {
    Calls(Hand(fingers, joints), ROOT, mask)
  }

  /** The index map once the hand is initialised. */
  function HandIndex(fingers: nat, joints: nat, mask: nat): map<Key, nat> {
    IndexAfter(map[], HandCalls(fingers, joints, mask))
  }

  lemma HandCallsAre(fingers: nat, joints: nat, mask: nat)
    ensures var calls := HandCalls(fingers, joints, mask);
      && |calls| == DataCount(HandTree(fingers, joints))
      && IdsWithin(calls, 0, |calls|)
      && forall n :: 0 <= n < |calls| ==> calls[n].id == n
  {
    hide Calls, LevelOf, Hand, DataCount, IdsWithin;
    CallIds(Hand(fingers, joints), ROOT, mask);
  }

  /** The n-th call is that of the datum with id n. */
  lemma CallOf(fingers: nat, joints: nat, mask: nat, a: Address)
    requires Exists(HandTree(fingers, joints), a)
    ensures var calls, n := HandCalls(fingers, joints, mask), IdOf(HandTree(fingers, joints), 0, a);
      n < |calls| && calls[n] == Call(n, InfoAt(Hand(fingers, joints), ROOT, mask, a))
  {
    hide Calls, LevelOf, Hand, DataCount, IdsWithin, Exists, IdOf, InfoAt;
    HandCallsAre(fingers, joints, mask);
    CallFor(Hand(fingers, joints), ROOT, mask, a);
  }

  lemma AddressOf(fingers: nat, joints: nat, mask: nat, n: nat) returns (a: Address)
    requires n < |HandCalls(fingers, joints, mask)|
    ensures Exists(HandTree(fingers, joints), a) && IdOf(HandTree(fingers, joints), 0, a) == n
    ensures HandCalls(fingers, joints, mask)[n] == Call(n, InfoAt(Hand(fingers, joints), ROOT, mask, a))
  {
    hide Calls, LevelOf, Hand, DataCount, IdsWithin, Exists, IdOf, InfoAt;
    HandCallsAre(fingers, joints, mask);
    a := EveryIdAddressed(HandTree(fingers, joints), 0, n);
    CallOf(fingers, joints, mask, a);
  }

  lemma RPdoIds(fingers: nat, joints: nat, a: Address)
    requires Exists(HandTree(fingers, joints), a)
    ensures IdOf(HandTree(fingers, joints), 0, a) == R_PDO_ID <==> a == R_PDO
    ensures IdOf(HandTree(fingers, joints), 0, a) == T_PDO_ID <==> a == T_PDO
  {
    HandUnit(fingers, joints, 0, R_PDO_ID);
    HandUnit(fingers, joints, 0, T_PDO_ID);
    hide LevelOf, Hand, Exists, IdOf;
    var id := IdOf(HandTree(fingers, joints), 0, a);
    if id == R_PDO_ID { IdsInjective(HandTree(fingers, joints), 0, a, R_PDO); }
    if id == T_PDO_ID { IdsInjective(HandTree(fingers, joints), 0, a, T_PDO); }
  }

  /** A later call under the same key can only be TPdoId's after RPdoId's. */
  lemma LastForItsKey(fingers: nat, joints: nat, mask: nat, a: Address, m: nat)
    requires Fits(fingers, joints) && Exists(HandTree(fingers, joints), a) && a != R_PDO
    requires IdOf(HandTree(fingers, joints), 0, a) < m < |HandCalls(fingers, joints, mask)|
    ensures HandCalls(fingers, joints, mask)[m].info.key != InfoAt(Hand(fingers, joints), ROOT, mask, a).key
  {
    hide HandCalls, HandTree, Hand, Exists, IdOf, InfoAt, Locate;
    var b := AddressOf(fingers, joints, mask, m);
    KeyLocates(fingers, joints, mask, a);
    KeyLocates(fingers, joints, mask, b);
    RPdoIds(fingers, joints, a);
    RPdoIds(fingers, joints, b);
  }

  /**
   `find_storage_by_index` on every wire key: it finds a unit exactly when the key belongs to a datum, and
   then the unit of that datum.
   */
  lemma DispatchInvertsAddressing(fingers: nat, joints: nat, mask: nat, key: Key)
    requires Fits(fingers, joints)
    ensures var index, found := HandIndex(fingers, joints, mask), Locate(fingers, joints, key);
      && (key in index <==> found.Some?)
      && (found.Some? ==>
            && Exists(HandTree(fingers, joints), found.value) && found.value != R_PDO
            && index[key] == IdOf(HandTree(fingers, joints), 0, found.value))
  {
    hide HandCalls, HandTree, Hand, Exists, IdOf, InfoAt, Locate;
    var calls, found := HandCalls(fingers, joints, mask), Locate(fingers, joints, key);
    if found.Some? {
      var a := found.value;
      LocatedHasKey(fingers, joints, mask, key);
      CallOf(fingers, joints, mask, a);
      var n := IdOf(HandTree(fingers, joints), 0, a);
      forall m | n < m < |calls|
        ensures calls[m].info.key != calls[n].info.key
      {
        LastForItsKey(fingers, joints, mask, a, m);
      }
      LastCallWins(map[], calls, n);
    } else if key in HandIndex(fingers, joints, mask) {
      var n := OnlyCalledKeys(calls, key);
      var a := AddressOf(fingers, joints, mask, n);
      KeyLocates(fingers, joints, mask, a);
    }
  }

  /** From a unit to its key and back: the same unit, except that RPdoId's key finds TPdoId. */
  lemma AddressingRoundTrip(fingers: nat, joints: nat, mask: nat, a: Address)
    requires Fits(fingers, joints) && Exists(HandTree(fingers, joints), a)
    ensures var index, key := HandIndex(fingers, joints, mask), InfoAt(Hand(fingers, joints), ROOT, mask, a).key;
      key in index && index[key] == if a == R_PDO then T_PDO_ID else IdOf(HandTree(fingers, joints), 0, a)
  {
    hide HandIndex, LevelOf, Hand, Exists, IdOf, InfoAt, Locate;
    KeyLocates(fingers, joints, mask, a);
    DispatchInvertsAddressing(fingers, joints, mask, InfoAt(Hand(fingers, joints), ROOT, mask, a).key);
    if a == R_PDO { RPdoIds(fingers, joints, T_PDO); }
  }

  /** No reply, whatever its key, reaches RPdoId's unit. */
  lemma NothingReachesRPdoId(fingers: nat, joints: nat, mask: nat, key: Key)
    requires Fits(fingers, joints) && key in HandIndex(fingers, joints, mask)
    ensures HandIndex(fingers, joints, mask)[key] != R_PDO_ID
  {
    hide HandIndex, HandTree, Hand, Exists, IdOf, InfoAt, Locate;
    DispatchInvertsAddressing(fingers, joints, mask, key);
    RPdoIds(fingers, joints, Locate(fingers, joints, key).value);
  }

  // ---------------------------------------------------------------- the initialised hand

  /** Every unit idle and described as its datum is, and the index map as the calls left it. */
  ghost predicate Initialised(us: seq<StorageUnit>, index: map<Key, nat>, fingers: nat, joints: nat, mask: nat) {
    && |us| == DataCount(HandTree(fingers, joints)) && index == HandIndex(fingers, joints, mask)
    && (forall u :: u in us ==> Idle(u) && u.callback.None?)
    && (forall a :: Exists(HandTree(fingers, joints), a) ==> Described(us, fingers, joints, mask, a))
  }

  ghost predicate Described(us: seq<StorageUnit>, fingers: nat, joints: nat, mask: nat, a: Address)
    requires Exists(HandTree(fingers, joints), a)
  {
    var id := IdOf(HandTree(fingers, joints), 0, a);
    id < |us| && us[id].info == InfoAt(Hand(fingers, joints), ROOT, mask, a)
  }

  lemma InitialisedBy(us: seq<StorageUnit>, fingers: nat, joints: nat, mask: nat)
    requires |us| == DataCount(HandTree(fingers, joints)) && forall u :: u in us ==> Idle(u) && u.callback.None?
    ensures IdsWithin(HandCalls(fingers, joints, mask), 0, |us|)
    ensures Initialised(UnitsAfter(us, HandCalls(fingers, joints, mask)),
                        HandIndex(fingers, joints, mask), fingers, joints, mask)
  {
    hide HandCalls, HandIndex, DataCount, LevelOf, Exists, IdOf, InfoAt, IdsWithin, DistinctIds, UnitsAfter, Described;
    HandCallsAre(fingers, joints, mask);
    var calls := HandCalls(fingers, joints, mask);
    var after := UnitsAfter(us, calls);
    forall a | Exists(HandTree(fingers, joints), a)
      ensures Described(after, fingers, joints, mask, a)
    {
      DescribedBy(us, fingers, joints, mask, a);
    }
    StaysIdle(us, calls);
  }

  lemma DescribedBy(us: seq<StorageUnit>, fingers: nat, joints: nat, mask: nat, a: Address)
    requires |us| == DataCount(HandTree(fingers, joints)) && Exists(HandTree(fingers, joints), a)
    requires IdsWithin(HandCalls(fingers, joints, mask), 0, |us|)
    ensures Described(UnitsAfter(us, HandCalls(fingers, joints, mask)), fingers, joints, mask, a)
  {
    hide HandCalls, DataCount, LevelOf, Exists, IdOf, InfoAt, IdsWithin, DistinctIds, UnitsAfter;
    HandCallsAre(fingers, joints, mask);
    OrderedDistinct(HandCalls(fingers, joints, mask));
    CallOf(fingers, joints, mask, a);
    InfoStands(us, HandCalls(fingers, joints, mask), IdOf(HandTree(fingers, joints), 0, a));
  }

  lemma OrderedDistinct(calls: seq<Call>)
    requires forall n :: 0 <= n < |calls| ==> calls[n].id == n
    ensures DistinctIds(calls)
  {
  }

  lemma {:induction false} StaysIdle(us: seq<StorageUnit>, calls: seq<Call>)
    requires IdsWithin(calls, 0, |us|) && forall u :: u in us ==> Idle(u) && u.callback.None?
    ensures forall u :: u in UnitsAfter(us, calls) ==> Idle(u) && u.callback.None?
  {
    if calls != [] { StaysIdle(us, calls[..|calls| - 1]); }
  }

  lemma IdleUnits(us: seq<StorageUnit>)
    requires forall i :: 0 <= i < |us| ==> us[i].operation == IDLE && us[i].callback.None?
    ensures forall u :: u in us ==> Idle(u) && u.callback.None?
  {
  }

  /** The handler of `Hand`'s constructor, after `init_storage_info`. */
  method NewHandler(fingers: nat, joints: nat, mask: nat) returns (h: Handlers.Handler)
    ensures fresh(h) && h.Valid() && h.log == []
    ensures Initialised(h.storage[..], h.index, fingers, joints, mask)
  {
    hide Calls, Hand, LevelOf, DataCount, UnitsAfter, IndexAfter, IdsWithin, Initialised, Idle;
    hide TransmitBuffers.Conserved, RingBuffers.RingBuffer.Valid,
    TransmitBuffers.AsyncTransmitBuffer.Valid, TransmitBuffers.AsyncTransmitBuffer.Shared;
    h := new Handlers.Handler(64, DataCount(LevelOf(Hand(fingers, joints))));
    IdleUnits(h.storage[..]);
    InitialisedBy(h.storage[..], fingers, joints, mask);
    InitStorageInfo(h, Hand(fingers, joints), ROOT, mask);
    IndexInRange(HandCalls(fingers, joints, mask), h.storage.Length);
  }

  lemma IndexInRange(calls: seq<Call>, high: nat)
    requires IdsWithin(calls, 0, high)
    ensures forall key :: key in IndexAfter(map[], calls) ==> IndexAfter(map[], calls)[key] < high
  {
    forall key | key in IndexAfter(map[], calls)
      ensures IndexAfter(map[], calls)[key] < high
    {
      var n := OnlyCalledKeys(calls, key);
      assert calls[n] in calls;
    }
  }

  // ---------------------------------------------------------------- who owns a key

  /** After initialisation with the mask of a set of joint numbers the masked units are those of these joints. */
  lemma MaskedUnits(us: seq<StorageUnit>, index: map<Key, nat>,
    fingers: nat, joints: nat, bits: set<nat>, n: nat, a: Address)
    requires Fits(fingers, joints) && Initialised(us, index, fingers, joints, MaskOf(bits, n))
    requires Exists(HandTree(fingers, joints), a)
    ensures var id := IdOf(HandTree(fingers, joints), 0, a);
      && id < |us|
      && (Masked(us[id]) <==>
            |a.path| == 2 && a.path[0] * joints + a.path[1] < n && a.path[0] * joints + a.path[1] in bits)
  {
    hide HandIndex, LevelOf, Hand, InfoAt, Exists, IdOf, DataCount, MaskOf;
    assert Described(us, fingers, joints, MaskOf(bits, n), a);
    MaskedData(fingers, joints, bits, n, a);
  }

  /** The default mask 0 masks no unit. */
  lemma DefaultMask(us: seq<StorageUnit>, index: map<Key, nat>, fingers: nat, joints: nat, i: nat)
    requires Fits(fingers, joints) && Initialised(us, index, fingers, joints, 0) && i < |us|
    ensures !Masked(us[i])
  {
    hide HandIndex, LevelOf, Hand, InfoAt, Exists, IdOf, DataCount, MaskOf, Masked;
    SmallMasks(0, 0);
    var a := EveryIdAddressed(HandTree(fingers, joints), 0, i);
    MaskedUnits(us, index, fingers, joints, {}, 0, a);
  }

  /** The mask of one joint's bit masks the units of that joint and no others. */
  lemma OneJointMasked(us: seq<StorageUnit>, index: map<Key, nat>,
    fingers: nat, joints: nat, f: nat, j: nat, a: Address)
    requires Fits(fingers, joints) && f < fingers && j < joints && Exists(HandTree(fingers, joints), a)
    requires Initialised(us, index, fingers, joints, Bits.Pow2(f * joints + j))
    ensures var id := IdOf(HandTree(fingers, joints), 0, a); id < |us| && (Masked(us[id]) <==> a.path == [f, j])
  {
    hide HandIndex, LevelOf, Hand, InfoAt, Exists, IdOf, DataCount, MaskOf, Masked, Initialised, Bits.Pow2;
    var bit := f * joints + j;
    SmallMasks(bit, bit + 1);
    MaskedUnits(us, index, fingers, joints, {bit}, bit + 1, a);
    HandAddresses(fingers, joints, a);
    if a.path != [] {
      Bits.ModSplit(bit, f, j, joints);
      if a.path[0] * joints + a.path[1] == bit { Bits.ModSplit(bit, a.path[0], a.path[1], joints); }
      assert a.path == [a.path[0], a.path[1]];
    }
  }

  lemma KeyLeadsHere(fingers: nat, joints: nat, mask: nat, a: Address, other: Key)
    requires Fits(fingers, joints) && Exists(HandTree(fingers, joints), a) && a != R_PDO
    ensures var index, id := HandIndex(fingers, joints, mask), IdOf(HandTree(fingers, joints), 0, a);
      other in index && index[other] == id <==> other == InfoAt(Hand(fingers, joints), ROOT, mask, a).key
  {
    hide HandIndex, LevelOf, Hand, Exists, IdOf, InfoAt, Locate;
    AddressingRoundTrip(fingers, joints, mask, a);
    DispatchInvertsAddressing(fingers, joints, mask, other);
    if Locate(fingers, joints, other).Some? {
      var b := Locate(fingers, joints, other).value;
      LocatedHasKey(fingers, joints, mask, other);
      if IdOf(HandTree(fingers, joints), 0, b) == IdOf(HandTree(fingers, joints), 0, a) {
        IdsInjective(HandTree(fingers, joints), 0, a, b);
      }
    }
  }

  /** Two data with one key are RPdoId and TPdoId. */
  lemma SameKey(fingers: nat, joints: nat, mask: nat, a: Address, b: Address)
    requires Fits(fingers, joints) && Exists(HandTree(fingers, joints), a) && Exists(HandTree(fingers, joints), b)
    requires a != b
    requires InfoAt(Hand(fingers, joints), ROOT, mask, a).key == InfoAt(Hand(fingers, joints), ROOT, mask, b).key
    ensures {a, b} == {R_PDO, T_PDO}
  {
    hide HandTree, Hand, Exists, InfoAt, Locate;
    KeyLocates(fingers, joints, mask, a);
    KeyLocates(fingers, joints, mask, b);
  }

  /**
   On an initialised hand every unmasked datum but RPdoId owns its key in the sense of the end-to-end theorems;
   no other unit has the key, except that RPdoId has TPdoId's.
   */
  lemma HandOwns(s: System, fingers: nat, joints: nat, mask: nat, a: Address)
    requires Fits(fingers, joints) && Initialised(s.units, s.index, fingers, joints, mask)
    requires Exists(HandTree(fingers, joints), a) && a != R_PDO
    ensures var id, info := IdOf(HandTree(fingers, joints), 0, a), InfoAt(Hand(fingers, joints), ROOT, mask, a);
      && Worlds.OwnsKey(s, id, info.key, info.size)
      && (MASKED !in info.policy ==> Worlds.Owns(s, id, info.key, info.size))
      && forall i :: 0 <= i < |s.units| && i != id && s.units[i].info.key == info.key ==> a == T_PDO && i == R_PDO_ID
  {
    hide HandIndex, LevelOf, Hand, InfoAt, Exists, IdOf, DataCount;
    var id, info := IdOf(HandTree(fingers, joints), 0, a), InfoAt(Hand(fingers, joints), ROOT, mask, a);
    assert Described(s.units, fingers, joints, mask, a);
    forall other: Key
      ensures other in s.index && s.index[other] == id <==> other == info.key
    {
      KeyLeadsHere(fingers, joints, mask, a, other);
    }
    forall i: nat | i < |s.units| && i != id && s.units[i].info.key == info.key
      ensures a == T_PDO && i == R_PDO_ID
    {
      OtherHolder(s.units, s.index, fingers, joints, mask, a, i);
    }
  }

  lemma OtherHolder(us: seq<StorageUnit>, index: map<Key, nat>,
    fingers: nat, joints: nat, mask: nat, a: Address, i: nat)
    requires Fits(fingers, joints) && Initialised(us, index, fingers, joints, mask)
    requires Exists(HandTree(fingers, joints), a) && a != R_PDO
    requires i < |us| && i != IdOf(HandTree(fingers, joints), 0, a)
    requires us[i].info.key == InfoAt(Hand(fingers, joints), ROOT, mask, a).key
    ensures a == T_PDO && i == R_PDO_ID
  {
    hide HandIndex, LevelOf, Hand, InfoAt, Exists, IdOf, DataCount;
    var b := EveryIdAddressed(HandTree(fingers, joints), 0, i);
    assert Described(us, fingers, joints, mask, b);
    SameKey(fingers, joints, mask, a, b);
    assert R_PDO in {a, b} && T_PDO in {a, b};
    RPdoIds(fingers, joints, b);
  }

  // ---------------------------------------------------------------- what the shared key does

  predicate NeverReached(s: System, id: nat) {
    forall key :: key in s.index ==> s.index[key] != id
  }

  predicate Unanswered(u: StorageUnit) {
    !Masked(u) && (Idle(u) || u.operation.state != SUCCESS)
  }

  lemma StepUnanswered(s: System, e: Event, id: nat)
    requires id < |s.units| && NeverReached(s, id) && Unanswered(s.units[id])
    ensures Unanswered(Step(s, e).units[id])
  {
    UnitStep(s, e, id);
    hide Step;
  }

  /** A unit no key leads to never succeeds: on no run does a tick of it say true. */
  lemma {:induction false} NeverReachedNeverSucceeds(s: System, es: seq<Event>, id: nat, now: int)
    requires id < |s.units| && NeverReached(s, id) && Unanswered(s.units[id])
    ensures Unanswered(Run(s, es).units[id]) && true !in Tick(Run(s, es).units[id], now).verdicts
  {
    if es != [] {
      var before := es[..|es| - 1];
      NeverReachedNeverSucceeds(s, before, id, now);
      hide Step, Tick;
      StepUnanswered(Run(s, before), es[|es| - 1], id);
    }
    UnansweredTick(Run(s, es).units[id], now);
  }

  lemma UnansweredTick(u: StorageUnit, now: int)
    requires Unanswered(u)
    ensures true !in Tick(u, now).verdicts
  {
  }

  lemma RPdoIdUnit(s: System, fingers: nat, joints: nat, mask: nat)
    requires Fits(fingers, joints) && Initialised(s.units, s.index, fingers, joints, mask)
    ensures R_PDO_ID < |s.units| && NeverReached(s, R_PDO_ID) && Unanswered(s.units[R_PDO_ID])
  {
    hide HandIndex, LevelOf, Hand, InfoAt, Masked;
    HandUnit(fingers, joints, mask, R_PDO_ID);
    assert Described(s.units, fingers, joints, mask, R_PDO);
    forall key | key in s.index
      ensures s.index[key] != R_PDO_ID
    {
      NothingReachesRPdoId(fingers, joints, mask, key);
    }
    NoPolicy(s.units[R_PDO_ID]);
  }

  lemma NoPolicy(u: StorageUnit)
    requires u.info.policy == {}
    ensures !Masked(u)
  {
  }

  /** Whatever the device answers, a checked write of RPdoId is never told success on any run. */
  lemma RPdoIdNeverSucceeds(s: System, fingers: nat, joints: nat, mask: nat, es: seq<Event>, now: int)
    requires Fits(fingers, joints) && Initialised(s.units, s.index, fingers, joints, mask)
    ensures R_PDO_ID < |s.units|
    ensures true !in Tick(Run(s, es).units[R_PDO_ID], now).verdicts
  {
    RPdoIdUnit(s, fingers, joints, mask);
    NeverReachedNeverSucceeds(s, es, R_PDO_ID, now);
  }

  /** It ends with failure at the first tick at or after its deadline, and stays pending until then. */
  lemma RPdoIdTimesOut(s: System, fingers: nat, joints: nat, mask: nat,
    es: seq<Event>, more: seq<Event>, k: nat, deadline: int)
    requires Fits(fingers, joints) && Initialised(s.units, s.index, fingers, joints, mask) && Initial(s)
    requires R_PDO_ID < |s.units| && ArmedFor(Run(s, es).units[R_PDO_ID], k, deadline)
    ensures var p := Run(s, es); var t := Run(p, more);
      && (TicksBefore(more, R_PDO_ID, deadline) <==> Pending(t, k))
      && Verdicts(t.log, k) == Verdicts(p.log, k) + if TicksBefore(more, R_PDO_ID, deadline) then [] else [false]
  {
    hide Run, Step, Verdicts, ArmedFor, Pending, Initialised, Settled;
    RPdoIdUnit(s, fingers, joints, mask);
    var p := Run(s, es);
    assert NoReplyFor(p, more, R_PDO_ID);
    RunSettles(s, es, k);
    EndsAtDeadline(p, more, R_PDO_ID, k, deadline);
  }
}
