/**
 The hand as the device tree it is: what each class declares, the addresses that follow, and which unit a
 reply with a given wire key reaches.
 */
module HandDevice {
  import Bits
  import opened Wire
  import opened StorageUnits
  import opened Layout
  import opened Devices

  const JOINT_DATAS: seq<Datum> := [
    Datum(0x01, 1, Size4, Plain),          // HardwareVersion
    Datum(0x01, 2, Size4, Plain),          // HardwareDate
    Datum(0x02, 1, Size2, Plain),          // ControlMode
    Datum(0x05, 8, Size2, Plain),          // SinLevel
    Datum(0x07, 2, Size2, Plain),          // CurrentLimit
    Datum(0x0B, 8, Size4, Plain),          // BusVoltage
    Datum(0x0B, 9, Size4, Plain),          // Temperature
    Datum(0x0D, 4, Size2, Plain),          // ResetError
    Datum(0x3F, 0, Size4, Plain),          // ErrorCode
    Datum(0x40, 0, Size2, ControlWord),    // Enabled
    Datum(0x64, 0, Size4, Position),       // ActualPosition
    Datum(0x7A, 0, Size4, Position),       // TargetPosition
    Datum(0x0E, 27, Size4, UpperLimit),    // UpperLimit
    Datum(0x0E, 28, Size4, LowerLimit)     // LowerLimit
  ]

  const HAND_DATAS: seq<Datum> := [
    Datum(0x5090, 0, Size1, Plain),        // Handedness
    Datum(0x5201, 1, Size4, Plain),        // FirmwareVersion
    Datum(0x5201, 2, Size4, Plain),        // FirmwareDate
    Datum(0x520A, 1, Size4, Plain),        // SystemTime
    Datum(0x520A, 9, Size4, Plain),        // Temperature
    Datum(0x520A, 10, Size4, Plain),       // InputVoltage
    Datum(0x52A0, 5, Size1, Plain),        // PdoEnabled
    Datum(0x52A4, 2, Size2, Plain),        // RPdoId
    Datum(0x52A4, 2, Size2, Plain),        // TPdoId
    Datum(0x52A4, 5, Size4, Plain),        // PdoInterval
    Datum(0x52A4, 6, Size4, Plain),        // RPdoTriggerOffset
    Datum(0x52A4, 7, Size4, Plain)         // TPdoTriggerOffset
  ]

  const R_PDO_ID := 7
  const T_PDO_ID := 8

  const JOINT := Simple(JOINT_DATAS)

  function Finger(joints: nat): Device {
    Compound([], joints, JOINT, 0, 0x100)
  }

  /** The hand with any number of fingers and joints; the product has five and four. */
  function Hand(fingers: nat, joints: nat): Device {
    Compound(HAND_DATAS, fingers, Finger(joints), 0x2000, 0x800)
  }

  /** The fingers' indices end below the hand's own, and a finger's joints below the next finger. */
  predicate Fits(fingers: nat, joints: nat) {
    0x2000 + fingers * 0x800 <= 0x5000 && joints <= 8
  }

  lemma HandLevel(fingers: nat, joints: nat)
    ensures LevelOf(Hand(fingers, joints)) == Branch(12, fingers, Branch(0, joints, Leaf(14)))
  {
    assert |HAND_DATAS| == 12 && |JOINT_DATAS| == 14;
    assert LevelOf(JOINT) == Leaf(14);
    assert LevelOf(Finger(joints)) == Branch(0, joints, Leaf(14));
  }

  lemma LevelCount(fingers: nat, joints: nat)
    ensures DataCount(Branch(12, fingers, Branch(0, joints, Leaf(14)))) == 12 + fingers * (joints * 14)
  {
    assert DataCount(Branch(0, joints, Leaf(14))) == 0 + joints * 14;
  }

  /** The tree needs 292 storage units on the product. */
  lemma HandIds(fingers: nat, joints: nat)
    ensures DataCount(LevelOf(Hand(fingers, joints))) == 12 + fingers * (joints * 14)
    ensures DataCount(LevelOf(Hand(5, 4))) == 292
  {
    hide *;
    HandLevel(fingers, joints);
    HandLevel(5, 4);
    LevelCount(fingers, joints);
    LevelCount(5, 4);
  }

  // ---------------------------------------------------------------- where a joint is

  lemma {:induction false} ZeroOr(a: nat)
    ensures Bits.Or(0, a) == a
  {
    if a > 0 { ZeroOr(a / 2); }
  }

  function FingerPlace(fingers: nat, joints: nat, f: nat): Place {
    SubPlace(Hand(fingers, joints), ROOT, f)
  }

  function JointPlace(fingers: nat, joints: nat, f: nat, j: nat): Place {
    SubPlace(Finger(joints), FingerPlace(fingers, joints, f), j)
  }

  lemma SubPlaceSmall(d: Device, p: Place, j: nat)
    requires d.Compound? && p.index + d.subIndex + j * d.subStep < 0x1_0000
    requires p.i * 0x100 + j < WORD32 && p.shape * 0x100 < WORD32
    ensures var q := SubPlace(d, p, j);
      && q.index == p.index + d.subIndex + j * d.subStep
      && q.i == p.i * 0x100 + j && q.shape == Bits.Or(p.shape * 0x100, d.subCount)
  {
    hide SubOffset, LevelOf, Bits.Or;
  }

  lemma FingerPlaceIs(fingers: nat, joints: nat, f: nat)
    requires Fits(fingers, joints) && f < fingers
    ensures var p := FingerPlace(fingers, joints, f);
      p.index == 0x2000 + f * 0x800 && p.i == f && p.shape == fingers
  {
    hide SubPlace, Bits.Or;
    SubPlaceSmall(Hand(fingers, joints), ROOT, f);
    ZeroOr(fingers);
  }

  lemma JointPlaceIs(fingers: nat, joints: nat, f: nat, j: nat)
    requires Fits(fingers, joints) && f < fingers && j < joints
    ensures var p := JointPlace(fingers, joints, f, j);
      && p.index == 0x2000 + f * 0x800 + j * 0x100
      && p.i == f * 0x100 + j && p.shape == fingers * 0x100 + joints
  {
    FingerPlaceIs(fingers, joints, f);
    hide SubPlace, Bits.Or, FingerPlace;
    SubPlaceSmall(Finger(joints), FingerPlace(fingers, joints, f), j);
    ShapeOr(fingers, joints);
  }

  lemma ShapeOr(fingers: nat, joints: nat)
    requires joints <= 8
    ensures Bits.Or(fingers * 0x100, joints) == fingers * 0x100 + joints
  {
    var k := 8;
    assert Bits.Pow2(k) == 0x100;
    hide Bits.Or, Bits.Pow2;
    Bits.OrHigh(fingers, 0, joints, k);
    ZeroOr(joints);
  }

  // ---------------------------------------------------------------- what each unit is told

  /** The first joint of every finger but the thumb turns the other way. */
  predicate Mirrored(f: nat, j: nat) {
    j == 0 && f != 0
  }

  /** The two limit sub-indices traded on a mirrored joint; its own inverse. */
  function Swap(mirrored: bool, base: nat, sub: Byte): Byte {
    if !mirrored || base != 0x0E then sub
    else if sub == 27 then 28
    else if sub == 28 then 27
    else sub
  }

  function JointKey(f: nat, j: nat, d: Datum): Key
    requires 0x2000 + f * 0x800 + j * 0x100 + d.index < 0x1_0000
  {
    Key(0x2000 + f * 0x800 + j * 0x100 + d.index, Swap(Mirrored(f, j), d.index, d.sub))
  }

  function JointPolicy(f: nat, j: nat, kind: Kind): set<Policy> {
    match kind
    case Plain => {}
    case ControlWord => {CONTROL_WORD}
    case _ => if Mirrored(f, j) then {POSITION, POSITION_REVERSED} else {POSITION}
  }

  predicate GoodJointDatum(d: Datum) {
    && d.index < 0x100
    && (d.kind == UpperLimit <==> d.index == 0x0E && d.sub == 27)
    && (d.kind == LowerLimit <==> d.index == 0x0E && d.sub == 28)
    && (d.index == 0x0E ==> d.sub in {27, 28})
    && (d.kind == ControlWord ==> d.size == Size2)
    && (d.kind !in {Plain, ControlWord} ==> d.size == Size4)
  }

  lemma JointDatasGood(n: nat)
    requires n < 14
    ensures |JOINT_DATAS| == 14 && GoodJointDatum(JOINT_DATAS[n])
  {
  }

  lemma JointInfo(d: Datum, f: nat, j: nat)
    requires GoodJointDatum(d) && f < 6 && j < 8
    ensures Info(d, f * 0x100 + j)
         == StorageInfo(Key(d.index, Swap(Mirrored(f, j), d.index, d.sub)), d.size, JointPolicy(f, j, d.kind))
  {
    assert Reversed(f * 0x100 + j) == Mirrored(f, j);
    hide Reversed, Mirrored;
  }

  lemma JointFlat(fingers: nat, joints: nat, f: nat, j: nat, p: Place)
    requires fingers <= 6 && joints <= 8 && f < 6 && j < 8
    requires p.i == f * 0x100 + j && p.shape == fingers * 0x100 + joints
    ensures Flat(p) == f * joints + j
  {
    assert p.i / 0x100 % 0x100 == f && p.i % 0x100 == j && p.shape % 0x100 == joints;
  }

  lemma JointPlaced(fingers: nat, joints: nat, mask: nat, f: nat, j: nat, d: Datum, p: Place)
    requires Fits(fingers, joints) && f < fingers && j < joints && GoodJointDatum(d)
    requires p.index == 0x2000 + f * 0x800 + j * 0x100 && p.i == f * 0x100 + j && p.shape == fingers * 0x100 + joints
    ensures 0x2000 + f * 0x800 + j * 0x100 + d.index < 0x1_0000
    ensures Placed(d, p, mask)
         == StorageInfo(JointKey(f, j, d), d.size,
                        JointPolicy(f, j, d.kind) + if MaskBit(mask, f * joints + j) then {MASKED} else {})
  {
    DatumIndex(d);
    hide GoodJointDatum, Info, Flat, MaskBit, Swap, JointPolicy, Mirrored;
    JointInfo(d, f, j);
    JointFlat(fingers, joints, f, j, p);
  }

  /** Datum `n` of joint `j` of finger `f`, as every layer below knows it. */
  lemma JointUnit(fingers: nat, joints: nat, mask: nat, f: nat, j: nat, n: nat)
    requires Fits(fingers, joints) && f < fingers && j < joints && n < 14
    ensures |JOINT_DATAS| == 14
    ensures var a, d := Address([f, j], n), JOINT_DATAS[n];
      && Exists(LevelOf(Hand(fingers, joints)), a)
      && IdOf(LevelOf(Hand(fingers, joints)), 0, a) == 12 + (f * joints + j) * 14 + n
      && 0x2000 + f * 0x800 + j * 0x100 + d.index < 0x1_0000
      && InfoAt(Hand(fingers, joints), ROOT, mask, a)
      == StorageInfo(JointKey(f, j, d), d.size,
                     JointPolicy(f, j, d.kind) + if MaskBit(mask, f * joints + j) then {MASKED} else {})
  {
    JointDatasGood(n);
    hide GoodJointDatum, Exists, IdOf, InfoAt, LevelOf,
    Placed, MaskBit, JointPlace, Swap, JointPolicy, Mirrored, JOINT_DATAS;
    JointPlaceIs(fingers, joints, f, j);
    JointAddress(fingers, joints, f, j, n);
    JointInfoAt(fingers, joints, mask, f, j, n);
    JointPlaced(fingers, joints, mask, f, j, JOINT_DATAS[n], JointPlace(fingers, joints, f, j));
  }

  lemma DatumIndex(d: Datum)
    requires GoodJointDatum(d)
    ensures d.index < 0x100
  {
  }

  lemma JointAddress(fingers: nat, joints: nat, f: nat, j: nat, n: nat)
    requires f < fingers && j < joints && n < 14
    ensures var a, l := Address([f, j], n), LevelOf(Hand(fingers, joints));
      Exists(l, a) && IdOf(l, 0, a) == 12 + (f * joints + j) * 14 + n
  {
    HandLevel(fingers, joints);
    var joint, b, c := Leaf(14), Address([j], n), Address([], n);
    var finger := Branch(0, joints, joint);
    var hand, a := Branch(12, fingers, finger), Address([f, j], n);
    assert Exists(joint, c) && [j][1..] == [] && [f, j][1..] == [j];
    assert Exists(finger, b);
    hide LevelOf, Hand;
    assert DataCount(finger) == joints * 14;
    var offset := SubOffset(hand, 0, f);
    assert IdOf(finger, offset, b) == offset + j * 14 + n;
    assert f * (joints * 14) + j * 14 == (f * joints + j) * 14;
  }

  lemma JointInfoAt(fingers: nat, joints: nat, mask: nat, f: nat, j: nat, n: nat)
    requires f < fingers && j < joints && n < 14 == |JOINT_DATAS|
    requires Exists(LevelOf(Hand(fingers, joints)), Address([f, j], n))
    ensures InfoAt(Hand(fingers, joints), ROOT, mask, Address([f, j], n))
         == Placed(JOINT_DATAS[n], JointPlace(fingers, joints, f, j), mask)
  {
    hide Placed, SubPlace, JOINT_DATAS;
    assert [j][1..] == [] && [f, j][1..] == [j];
    var finger := FingerPlace(fingers, joints, f);
    assert InfoAt(Finger(joints), finger, mask, Address([j], n))
        == Placed(JOINT_DATAS[n], JointPlace(fingers, joints, f, j), mask);
  }

  /** Datum `n` of the hand itself; the mask never reaches it. */
  lemma HandUnit(fingers: nat, joints: nat, mask: nat, n: nat)
    requires n < 12
    ensures |HAND_DATAS| == 12
    ensures var a, d := Address([], n), HAND_DATAS[n];
      && Exists(LevelOf(Hand(fingers, joints)), a) && IdOf(LevelOf(Hand(fingers, joints)), 0, a) == n
      && InfoAt(Hand(fingers, joints), ROOT, mask, a) == StorageInfo(Key(d.index, d.sub), d.size, {})
  {
    assert |HAND_DATAS| == 12 && HAND_DATAS[n].kind == Plain;
  }

  /** Nothing else exists. */
  lemma HandAddresses(fingers: nat, joints: nat, a: Address)
    requires Exists(LevelOf(Hand(fingers, joints)), a)
    ensures a.path == [] ==> a.index < 12
    ensures a.path != [] ==> |a.path| == 2 && a.path[0] < fingers && a.path[1] < joints && a.index < 14
  {
    HandLevel(fingers, joints);
    hide LevelOf, Hand;
    if a.path != [] {
      var b := Address(a.path[1..], a.index);
      assert Exists(Branch(0, joints, Leaf(14)), b);
      if b.path != [] {
        var c := Address(b.path[1..], b.index);
        assert Exists(Leaf(14), c) && c.path == [];
        assert a.path == [a.path[0], b.path[0]];
      }
    }
  }

  /** Spelled out: which joint data are control words, which positions, and which of those are reversed or traded. */
  lemma JointTold(fingers: nat, joints: nat, mask: nat, f: nat, j: nat, n: nat)
    requires Fits(fingers, joints) && f < fingers && j < joints && n < 14
    ensures Exists(LevelOf(Hand(fingers, joints)), Address([f, j], n)) && |JOINT_DATAS| == 14
    ensures var info, reversed := InfoAt(Hand(fingers, joints), ROOT, mask, Address([f, j], n)), f > 0 && j == 0;
      && info.key.index == 0x2000 + f * 0x800 + j * 0x100 + JOINT_DATAS[n].index
      && info.key.sub == (if reversed && n == 12 then 28 else if reversed && n == 13 then 27 else JOINT_DATAS[n].sub)
      && info.size == JOINT_DATAS[n].size
      && (CONTROL_WORD in info.policy <==> n == 9)
      && (POSITION in info.policy <==> n >= 10)
      && (POSITION_REVERSED in info.policy <==> n >= 10 && reversed)
  {
    JointUnit(fingers, joints, mask, f, j, n);
    hide Exists, LevelOf, Hand, InfoAt, MaskBit;
    JointTable(n);
    hide JOINT_DATAS;
  }

  lemma JointTable(n: nat)
    requires n < 14
    ensures |JOINT_DATAS| == 14
    ensures var d := JOINT_DATAS[n];
      && (d.kind == ControlWord <==> n == 9) && (d.kind in {Position, UpperLimit, LowerLimit} <==> n >= 10)
      && (d.index == 0x0E <==> n == 12 || n == 13) && (n == 12 ==> d.sub == 27) && (n == 13 ==> d.sub == 28)
  {
  }

  /**
   With the mask of any set of joint numbers the data that are masked are exactly those of these joints; the
   hand's own never are.
   */
  lemma MaskedData(fingers: nat, joints: nat, bits: set<nat>, n: nat, a: Address)
    requires Fits(fingers, joints) && Exists(LevelOf(Hand(fingers, joints)), a)
    ensures MASKED in InfoAt(Hand(fingers, joints), ROOT, MaskOf(bits, n), a).policy
       <==> |a.path| == 2 && a.path[0] * joints + a.path[1] < n && a.path[0] * joints + a.path[1] in bits
  {
    hide Exists, LevelOf, Hand, InfoAt, MaskBit, MaskOf, JOINT_DATAS, HAND_DATAS, Mirrored;
    HandAddresses(fingers, joints, a);
    if a.path == [] {
      HandUnit(fingers, joints, MaskOf(bits, n), a.index);
      assert a == Address([], a.index);
    } else {
      JointUnit(fingers, joints, MaskOf(bits, n), a.path[0], a.path[1], a.index);
      assert a == Address([a.path[0], a.path[1]], a.index);
      MaskOfBits(bits, n, a.path[0] * joints + a.path[1]);
    }
  }
}
