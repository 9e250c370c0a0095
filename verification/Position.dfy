/**
 Joint angles as 32-bit fixed point, and the conversions `store_data` and `load_data` make between a user's
 value and the stored word. Every floating-point operation may be off by a relative error of 2^-53.
 */
module Positions {
  import opened Common
  import opened StorageUnits

  type Int32 = x: int | -0x8000_0000 <= x <= 0x7FFF_FFFF

  const MIN: Int32 := -0x8000_0000
  const MAX: Int32 := 0x7FFF_FFFF

  const M: real := 2147483647.0

  // 2^-53
  const UNIT: real := 1.0 / 9007199254740992.0

  /** What a double operation makes of the exact result of its operands. */
  type Rounding = real -> real

  function Abs(x: real): (r: real)
    ensures r >= 0.0
  {
    if x < 0.0 then -x else x
  }

  /** `a` is within a relative error of `e` of `x`. */
  predicate Close(a: real, x: real, e: real) {
    Abs(a - x) <= e * Abs(x)
  }

  ghost predicate Accurate(fl: Rounding) {
    forall x: real :: Close(fl(x), x, UNIT)
  }

  /** `std::round`: to nearest, halves away from zero. */
  function Round(y: real): int {
    if y >= 0.0 then (y + 0.5).Floor else -(-y + 0.5).Floor
  }

  function Clamp(y: real, low: real, high: real): real {
    if y < low then low else if high < y then high else y
  }

  /** A real clamped to the range of the raw positions, rounded. */
  function ToInt32(y: real): Int32 {
    var c := Clamp(y, MIN as real, MAX as real);
    ClampedRounds(c);
    Round(c)
  }

  lemma ClampedRounds(c: real)
    requires MIN as real <= c <= MAX as real
    ensures MIN <= Round(c) <= MAX
  {
  }

  /** The exact product a double multiplication rounds. */
  function Times(a: real, b: real): real {
    a * b
  }

  /** Raw units in a radian and radians in a raw unit; `turn` is the double nearest to 2 pi. */
  function Up(turn: real): (r: real)
    requires turn > 0.0
    ensures r > 0.0
  {
    M / turn
  }

  function Down(turn: real): (r: real)
    requires turn > 0.0
    ensures r > 0.0
  {
    turn / M
  }

  /** The angle scaled to raw units. */
  function Scaled(fl: Rounding, turn: real, angle: real): real
    requires turn > 0.0
  {
    fl(Times(angle, fl(Up(turn))))
  }

  function ToRawPosition(fl: Rounding, turn: real, angle: real): Int32
    requires turn > 0.0
  {
    ToInt32(Scaled(fl, turn, angle))
  }

  function ExtractRawPosition(fl: Rounding, turn: real, raw: Int32): real
    requires turn > 0.0
  {
    fl(Times(raw as real, fl(Down(turn))))
  }

  // ---------------------------------------------------------------- relative errors

  lemma CloseTimes(a: real, x: real, e: real, k: real)
    requires Close(a, x, e)
    ensures Close(Times(a, k), Times(x, k), e)
  {
    AbsTimes(a - x, k);
    AbsTimes(x, k);
    AbsOrder(Abs(a - x), e * Abs(x), Abs(k));
    Regroup(e, Abs(x), Abs(k));
    assert a * k - x * k == (a - x) * k;
  }

  lemma AbsTimes(a: real, b: real)
    ensures Abs(a * b) == Abs(a) * Abs(b)
  {
    if a >= 0.0 {
      if b >= 0.0 { AbsOrder(0.0, a, b); } else { AbsOrder(0.0, a, -b); }
    } else {
      if b >= 0.0 { AbsOrder(0.0, -a, b); } else { AbsOrder(0.0, -a, -b); }
    }
  }

  lemma AbsOrder(a: real, b: real, k: real)
    requires a <= b && k >= 0.0
    ensures a * k <= b * k
  {
  }

  lemma Regroup(a: real, b: real, c: real)
    ensures a * b * c == a * (b * c)
  {
  }

  /** Two small relative errors one after the other. */
  lemma CloseThrough(a: real, b: real, x: real, e: real, f: real)
    requires Close(a, b, e) && Close(b, x, f) && 0.0 <= e <= 1.0 && 0.0 <= f
    ensures Close(a, x, e + 2.0 * f)
  {
    hide Close;
    CloseSize(b, x, f);
    CloseIs(a, b, e);
    CloseIs(b, x, f);
    Triangle(a, b, x);
    ErrorsAdd(Abs(b), Abs(x), e, f);
    Chain(Abs(a - x), Abs(a - b), Abs(b - x), e * Abs(b), f * Abs(x), (e + 2.0 * f) * Abs(x));
    CloseIf(a, x, e + 2.0 * f);
  }

  lemma Triangle(a: real, b: real, c: real)
    ensures Abs(a - c) <= Abs(a - b) + Abs(b - c)
  {
  }

  // Steps that are linear once the products have names
  lemma Chain(z: real, x: real, y: real, p: real, q: real, r: real)
    requires z <= x + y && x <= p && y <= q && p + q <= r
    ensures z <= r
  {
  }

  lemma ErrorsAdd(b: real, s: real, e: real, f: real)
    requires 0.0 <= b <= (1.0 + f) * s && 0.0 <= s && 0.0 <= e <= 1.0 && 0.0 <= f
    ensures e * b + f * s <= (e + 2.0 * f) * s
  {
    var t := f * s;
    AbsOrder(0.0, f, s);
    assert b <= s + t by { Distribute(1.0, f, s); }
    SmallPart(b, s, t, e);
    assert (e + 2.0 * f) * s == e * s + 2.0 * t by {
      Distribute(e, 2.0 * f, s);
      Regroup(2.0, f, s);
    }
    Chain(e * b + t, e * b, t, e * s + t, t, (e + 2.0 * f) * s);
  }

  lemma SmallPart(b: real, s: real, t: real, e: real)
    requires b <= s + t && 0.0 <= t && 0.0 <= e <= 1.0
    ensures e * b <= e * s + t
  {
    var se, te := e * s, e * t;
    assert e * b <= se + te by {
      AbsOrder(b, s + t, e);
      Distribute(s, t, e);
    }
    assert te <= t by { AbsOrder(e, 1.0, t); }
    Chain(e * b, se, te, se, t, se + t);
  }

  lemma Distribute(a: real, b: real, c: real)
    ensures (a + b) * c == a * c + b * c
  {
  }

  lemma CloseSize(b: real, x: real, f: real)
    requires Close(b, x, f)
    ensures Abs(b) <= (1.0 + f) * Abs(x)
  {
    var s := Abs(x);
    assert (1.0 + f) * s == s + f * s;
  }

  lemma CloseIs(a: real, x: real, e: real)
    requires Close(a, x, e)
    ensures Abs(a - x) <= e * Abs(x)
  {
  }

  lemma CloseIf(a: real, x: real, e: real)
    requires Abs(a - x) <= e * Abs(x)
    ensures Close(a, x, e)
  {
  }

  // ---------------------------------------------------------------- there and back

  lemma Inverse(x: real, turn: real)
    requires turn > 0.0
    ensures Times(Times(x, Down(turn)), Up(turn)) == x && Times(-Times(x, Down(turn)), Up(turn)) == -x
  {
    var d, u := Down(turn), Up(turn);
    assert d * u == 1.0;
    Regroup(x, d, u);
    assert -(x * d) * u == -(x * d * u);
  }

  lemma AtPoint(fl: Rounding, x: real)
    requires Accurate(fl)
    ensures Close(fl(x), x, UNIT)
  {
  }

  lemma CloseNegated(a: real, x: real, e: real)
    requires Close(a, x, e)
    ensures Close(-a, -x, e)
  {
  }

  lemma TimesCommutes(a: real, b: real)
    ensures Times(a, b) == Times(b, a)
  {
  }

  /** An extracted angle is within three units of the exact one. */
  lemma ExtractClose(fl: Rounding, turn: real, raw: Int32)
    requires turn > 0.0 && Accurate(fl)
    ensures Close(ExtractRawPosition(fl, turn, raw), Times(raw as real, Down(turn)), 3.0 * UNIT)
  {
    hide Close, Accurate, Times, Down;
    var x, step := raw as real, Down(turn);
    var down := fl(step);
    AtPoint(fl, step);
    AtPoint(fl, Times(x, down));
    CloseTimes(down, step, UNIT, x);
    TimesCommutes(down, x);
    TimesCommutes(step, x);
    CloseThrough(fl(Times(x, down)), Times(x, down), Times(x, step), UNIT, UNIT);
  }

  /** Scaling adds three units, twice what the angle was off already. */
  lemma ScaledClose(fl: Rounding, turn: real, angle: real, exact: real, e: real)
    requires turn > 0.0 && Accurate(fl) && Close(angle, exact, e) && e >= 0.0
    ensures Close(Scaled(fl, turn, angle), Times(exact, Up(turn)), 3.0 * UNIT + 2.0 * e)
  {
    hide Close, Accurate, Times, Up;
    var k, up := fl(Up(turn)), Up(turn);
    AtPoint(fl, up);
    AtPoint(fl, Times(angle, k));
    CloseTimes(k, up, UNIT, angle);
    TimesCommutes(k, angle);
    TimesCommutes(up, angle);
    CloseThrough(fl(Times(angle, k)), Times(angle, k), Times(angle, up), UNIT, UNIT);
    CloseTimes(angle, exact, e, up);
    CloseThrough(fl(Times(angle, k)), Times(angle, up), Times(exact, up), 3.0 * UNIT, e);
  }

  /** Scaling an extracted position, or its negation, gives the raw position back up to nine units. */
  lemma ScaledExtract(fl: Rounding, turn: real, raw: Int32)
    requires turn > 0.0 && Accurate(fl)
    ensures Close(Scaled(fl, turn, ExtractRawPosition(fl, turn, raw)), raw as real, 9.0 * UNIT)
    ensures Close(Scaled(fl, turn, -ExtractRawPosition(fl, turn, raw)), -(raw as real), 9.0 * UNIT)
  {
    hide Close, Accurate, Times, Down, Up, Scaled, ExtractRawPosition;
    var x := raw as real;
    var angle, exact := ExtractRawPosition(fl, turn, raw), Times(x, Down(turn));
    ExtractClose(fl, turn, raw);
    CloseNegated(angle, exact, 3.0 * UNIT);
    ScaledClose(fl, turn, angle, exact, 3.0 * UNIT);
    ScaledClose(fl, turn, -angle, -exact, 3.0 * UNIT);
    Inverse(x, turn);
  }

  // ---------------------------------------------------------------- there and back

  lemma ToInt32Near(y: real, n: Int32)
    requires Abs(y - n as real) < 0.5
    ensures ToInt32(y) == n
  {
  }

  lemma ToInt32Above(y: real)
    requires y > MAX as real - 0.5
    ensures ToInt32(y) == MAX
  {
  }

  /** Halves round away from zero, so the lowest position starts half a unit above itself. */
  lemma ToInt32Lowest(y: real)
    ensures ToInt32(y) == MIN <==> y <= -2147483647.5
  {
  }

  lemma CloseNear(y: real, x: real)
    requires Close(y, x, 9.0 * UNIT) && Abs(x) <= 2147483648.0
    ensures Abs(y - x) < 0.25
  {
  }

  /** Every raw position survives extraction and conversion back, whatever the rounding errors were. */
  lemma RawRoundTrip(fl: Rounding, turn: real, raw: Int32)
    requires turn > 0.0 && Accurate(fl)
    ensures ToRawPosition(fl, turn, ExtractRawPosition(fl, turn, raw)) == raw
  {
    hide Close, Accurate, Scaled, ExtractRawPosition, ToInt32;
    ScaledExtract(fl, turn, raw);
    CloseNear(Scaled(fl, turn, ExtractRawPosition(fl, turn, raw)), raw as real);
    ToInt32Near(Scaled(fl, turn, ExtractRawPosition(fl, turn, raw)), raw);
  }

  /** Through the negated angle every position comes back negated, except the lowest, which is clamped. */
  lemma NegatedRoundTrip(fl: Rounding, turn: real, raw: Int32)
    requires turn > 0.0 && Accurate(fl)
    ensures ToRawPosition(fl, turn, -ExtractRawPosition(fl, turn, raw)) == if raw == MIN then MAX else -raw
  {
    hide Close, Accurate, Scaled, ExtractRawPosition, ToInt32;
    var y := Scaled(fl, turn, -ExtractRawPosition(fl, turn, raw));
    ScaledExtract(fl, turn, raw);
    CloseNear(y, -(raw as real));
    if raw == MIN { ToInt32Above(y); } else { ToInt32Near(y, -raw); }
  }

  // ---------------------------------------------------------------- quantisation

  predicate Representable(turn: real, angle: real)
    requires turn > 0.0
  {
    Times(MIN as real, Down(turn)) <= angle <= Times(MAX as real, Down(turn))
  }

  lemma ScaledRange(turn: real, angle: real)
    requires turn > 0.0 && Representable(turn, angle)
    ensures MIN as real <= Times(angle, Up(turn)) <= MAX as real
  {
    Inverse(MIN as real, turn);
    Inverse(MAX as real, turn);
    hide Down, Up;
    AbsOrder(Times(MIN as real, Down(turn)), angle, Up(turn));
    AbsOrder(angle, Times(MAX as real, Down(turn)), Up(turn));
  }

  /** One conversion from an angle in range: half a unit, and three units of relative error. */
  lemma RawNear(fl: Rounding, turn: real, angle: real)
    requires turn > 0.0 && Accurate(fl) && Representable(turn, angle)
    ensures Abs(ToRawPosition(fl, turn, angle) as real - Times(angle, Up(turn))) <= 0.5 + 3.0 * UNIT * 2147483648.0
  {
    hide Accurate, Scaled, ToInt32, Representable, Times, Down, Up;
    ScaledRange(turn, angle);
    ScaledClose(fl, turn, angle, angle, 0.0);
    RoundedNear(Scaled(fl, turn, angle), Times(angle, Up(turn)));
  }

  lemma RoundedNear(y: real, x: real)
    requires Close(y, x, 3.0 * UNIT + 2.0 * 0.0) && MIN as real <= x <= MAX as real
    ensures Abs(ToInt32(y) as real - x) <= 0.5 + 3.0 * UNIT * 2147483648.0
  {
    assert Abs(y - x) <= 3.0 * UNIT * 2147483648.0;
    hide Close;
    RoundsToHalf(y);
  }

  lemma RoundsToHalf(y: real)
    requires MIN as real - 0.5 <= y <= MAX as real + 0.5
    ensures Abs(ToInt32(y) as real - y) <= 0.5
  {
  }

  lemma Backward(turn: real, angle: real)
    requires turn > 0.0
    ensures Times(Times(angle, Up(turn)), Down(turn)) == angle
  {
    var d, u := Down(turn), Up(turn);
    assert u * d == 1.0;
    Regroup(angle, u, d);
  }

  lemma TimesDifference(a: real, b: real, k: real, e: real)
    requires Abs(a - b) <= e && k >= 0.0
    ensures Abs(Times(a, k) - Times(b, k)) <= Times(e, k)
  {
    AbsTimes(a - b, k);
    AbsOrder(Abs(a - b), e, k);
    assert (a - b) * k == a * k - b * k;
  }

  /** Two conversions: at most half a step and a rounding term of ten units of a turn. */
  lemma Quantised(fl: Rounding, turn: real, angle: real)
    requires turn > 0.0 && Accurate(fl) && Representable(turn, angle)
    ensures Abs(ExtractRawPosition(fl, turn, ToRawPosition(fl, turn, angle)) - angle)
      <= Down(turn) / 2.0 + 10.0 * UNIT * turn
  {
    hide Close, Accurate, Representable, Times, Down, Up, ExtractRawPosition, ToRawPosition;
    var raw, step := ToRawPosition(fl, turn, angle), Down(turn);
    var exact, slack := Times(raw as real, step), 0.5 + 3.0 * UNIT * 2147483648.0;
    RawNear(fl, turn, angle);
    TimesDifference(raw as real, Times(angle, Up(turn)), step, slack);
    Backward(turn, angle);
    ExtractClose(fl, turn, raw);
    StepBounds(turn, raw);
    CloseIs(ExtractRawPosition(fl, turn, raw), exact, 3.0 * UNIT);
    Triangle(ExtractRawPosition(fl, turn, raw), exact, angle);
  }

  /** The same through the negated position, which is how a reversed joint's angle is kept. */
  lemma QuantisedNegated(fl: Rounding, turn: real, angle: real)
    requires turn > 0.0 && Accurate(fl) && Representable(turn, angle) && ToRawPosition(fl, turn, angle) != MIN
    ensures Abs(-ExtractRawPosition(fl, turn, -ToRawPosition(fl, turn, angle)) - angle)
      <= Down(turn) / 2.0 + 10.0 * UNIT * turn
  {
    hide Close, Accurate, Representable, Times, Down, Up, ExtractRawPosition, ToRawPosition;
    var raw, step := ToRawPosition(fl, turn, angle), Down(turn);
    var slack := 0.5 + 3.0 * UNIT * 2147483648.0;
    var negated, exact := Times((-raw) as real, step), Times(raw as real, step);
    NegatedTimes(raw, step);
    RawNear(fl, turn, angle);
    TimesDifference(raw as real, Times(angle, Up(turn)), step, slack);
    Backward(turn, angle);
    ExtractClose(fl, turn, -raw);
    StepBounds(turn, -raw);
    CloseIs(ExtractRawPosition(fl, turn, -raw), negated, 3.0 * UNIT);
    Triangle(-ExtractRawPosition(fl, turn, -raw), exact, angle);
  }

  lemma NegatedTimes(raw: Int32, step: real)
    requires raw != MIN
    ensures Times((-raw) as real, step) == -Times(raw as real, step)
  {
    assert (-raw) as real == -(raw as real);
  }

  lemma StepBounds(turn: real, raw: Int32)
    requires turn > 0.0
    ensures 3.0 * UNIT * Abs(Times(raw as real, Down(turn))) <= 4.0 * UNIT * turn
    ensures Times(0.5 + 3.0 * UNIT * 2147483648.0, Down(turn)) <= Down(turn) / 2.0 + 4.0 * UNIT * turn
  {
    var d := Down(turn);
    assert M * d == turn;
    AbsOrder(raw as real, 2147483648.0, d);
    AbsOrder(-2147483648.0, raw as real, d);
    assert 2147483648.0 * d == turn + d && d <= turn / 8.0;
    assert Abs(Times(raw as real, d)) <= turn + d;
  }

  /** From a whole turn on, and from a turn and a step the other way, the position saturates. */
  lemma Saturates(fl: Rounding, turn: real, angle: real)
    requires turn > 0.0 && Accurate(fl)
    ensures angle >= turn ==> ToRawPosition(fl, turn, angle) == MAX
    ensures angle <= -turn - Down(turn) ==> ToRawPosition(fl, turn, angle) == MIN
  {
    hide Accurate, Scaled, Times, ToInt32, Down, Up;
    var x := Times(angle, Up(turn));
    ScaledClose(fl, turn, angle, angle, 0.0);
    if angle >= turn {
      TurnScaled(turn, angle);
      CloseAbove(Scaled(fl, turn, angle), x);
      ToInt32Above(Scaled(fl, turn, angle));
    }
    if angle <= -turn - Down(turn) {
      TurnBelow(turn, angle);
      CloseBelow(Scaled(fl, turn, angle), x);
      ToInt32Lowest(Scaled(fl, turn, angle));
    }
  }

  lemma TurnScaled(turn: real, angle: real)
    requires turn > 0.0 && angle >= turn
    ensures Times(angle, Up(turn)) >= M
  {
    var u := Up(turn);
    assert turn * u == M;
    AbsOrder(turn, angle, u);
  }

  lemma TurnBelow(turn: real, angle: real)
    requires turn > 0.0 && angle <= -turn - Down(turn)
    ensures Times(angle, Up(turn)) <= -M - 1.0
  {
    var u, d := Up(turn), Down(turn);
    assert turn * u == M && d * u == 1.0;
    AbsOrder(angle, -turn - d, u);
    assert (-turn - d) * u == -(turn * u) - d * u;
  }

  lemma CloseAbove(y: real, x: real)
    requires Close(y, x, 3.0 * UNIT + 2.0 * 0.0) && x >= M
    ensures y > M - 0.5
  {
    assert y >= x * (1.0 - 3.0 * UNIT);
  }

  lemma CloseBelow(y: real, x: real)
    requires Close(y, x, 3.0 * UNIT + 2.0 * 0.0) && x <= -M - 1.0
    ensures y <= -2147483647.5
  {
    assert y <= x * (1.0 - 3.0 * UNIT);
  }

  // ---------------------------------------------------------------- stored words

  /** A user's value: a control word's flag, a position's angle, or the bits of anything else. */
  datatype Data = Flag(on: bool) | Angle(angle: real) | Bits(value: nat)

  predicate Suits(policy: set<Policy>, data: Data) {
    if CONTROL_WORD in policy then data.Flag? else if POSITION in policy then data.Angle? else data.Bits?
  }

  function ToWord(x: Int32): (w: nat)
    ensures w < 0x1_0000_0000
  {
    if x < 0 then x + 0x1_0000_0000 else x
  }

  function FromWord(w: nat): Int32 {
    var low := w % 0x1_0000_0000;
    if low < 0x8000_0000 then low else low - 0x1_0000_0000
  }

  /** The word `store_data` stores; `None` where it negates the lowest position, which overflows. */
  function StoreData(fl: Rounding, turn: real, policy: set<Policy>, data: Data): Option<nat>
    requires turn > 0.0 && Suits(policy, data)
  {
    if CONTROL_WORD in policy then Some(if data.on then 1 else 5)
    else if POSITION in policy then
      var raw := ToRawPosition(fl, turn, data.angle);
      if POSITION_REVERSED !in policy then Some(ToWord(raw))
      else if raw == MIN then None
      else Some(ToWord(-raw))
    else Some(data.value)
  }

  /** The value `load_data` reads out of a word. */
  function LoadData(fl: Rounding, turn: real, policy: set<Policy>, word: nat): (data: Data)
    requires turn > 0.0
    ensures Suits(policy, data)
  {
    if CONTROL_WORD in policy then Flag(word % 0x1_0000 == 1)
    else if POSITION in policy then
      var angle := ExtractRawPosition(fl, turn, FromWord(word));
      Angle(if POSITION_REVERSED in policy then -angle else angle)
    else Bits(word)
  }

  predicate FitsWidth(policy: set<Policy>, word: nat) {
    if CONTROL_WORD in policy then word < 0x1_0000 else POSITION in policy ==> word < 0x1_0000_0000
  }

  /** The words that storing what was loaded does not bring back. */
  predicate Lossy(policy: set<Policy>, word: nat) {
    if CONTROL_WORD in policy then word != 1 && word != 5
    else POSITION in policy && POSITION_REVERSED in policy && word == ToWord(MIN)
  }

  /** Storing what was loaded never overflows, and restores the word exactly when it is not one of those. */
  lemma StoreLoad(fl: Rounding, turn: real, policy: set<Policy>, word: nat)
    requires turn > 0.0 && Accurate(fl) && FitsWidth(policy, word)
    ensures var stored := StoreData(fl, turn, policy, LoadData(fl, turn, policy, word));
      && stored.Some?
      && (stored.value == word <==> !Lossy(policy, word))
      && (CONTROL_WORD !in policy && Lossy(policy, word) ==> stored.value == ToWord(-MAX))
  {
    hide Accurate, ToRawPosition, ExtractRawPosition;
    if CONTROL_WORD !in policy && POSITION in policy {
      WordRoundTrip(word);
      RawRoundTrip(fl, turn, FromWord(word));
      NegatedRoundTrip(fl, turn, FromWord(word));
    }
  }

  /**
   Loading what was stored gives flags and plain values back, and angles, reversed or not, to within half a step and
   a rounding term. A set flag is stored as 1, a cleared one as 5.
   */
  lemma LoadStore(fl: Rounding, turn: real, policy: set<Policy>, data: Data)
    requires turn > 0.0 && Accurate(fl) && Suits(policy, data) && StoreData(fl, turn, policy, data).Some?
    ensures var stored := StoreData(fl, turn, policy, data).value; var loaded := LoadData(fl, turn, policy, stored);
      && (data.Flag? ==> stored == (if data.on then 1 else 5) && loaded == data)
      && (data.Bits? ==> stored == data.value && loaded == data)
      && (data.Angle? && Representable(turn, data.angle) ==>
            loaded.Angle? && Abs(loaded.angle - data.angle) <= Down(turn) / 2.0 + 10.0 * UNIT * turn)
  {
    hide Accurate, ToRawPosition, ExtractRawPosition, Representable, Down, Abs;
    if data.Angle? && Representable(turn, data.angle) {
      var raw := ToRawPosition(fl, turn, data.angle);
      WordReadBack(raw);
      Quantised(fl, turn, data.angle);
      if raw != MIN {
        WordReadBack(-raw);
        QuantisedNegated(fl, turn, data.angle);
      }
    }
  }

  lemma WordReadBack(x: Int32)
    ensures FromWord(ToWord(x)) == x
  {
  }

  lemma WordRoundTrip(word: nat)
    requires word < 0x1_0000_0000
    ensures ToWord(FromWord(word)) == word
  {
  }

  /** `store_data` overflows exactly on a reversed position scaled to half a unit above the lowest, or below that. */
  lemma StoreOverflows(fl: Rounding, turn: real, policy: set<Policy>, data: Data)
    requires turn > 0.0 && Suits(policy, data)
    ensures StoreData(fl, turn, policy, data).None? <==>
            data.Angle? && POSITION_REVERSED in policy && Scaled(fl, turn, data.angle) <= -2147483647.5
  {
    if data.Angle? { ToInt32Lowest(Scaled(fl, turn, data.angle)); }
    hide ToInt32, Scaled;
  }

  /** So every angle from a turn and a step below on is one that overflows. */
  lemma LowAngleOverflows(fl: Rounding, turn: real, policy: set<Policy>, angle: real)
    requires turn > 0.0 && Accurate(fl) && angle <= -turn - Down(turn)
    requires {POSITION, POSITION_REVERSED} <= policy && CONTROL_WORD !in policy
    ensures StoreData(fl, turn, policy, Angle(angle)).None?
  {
    Saturates(fl, turn, angle);
    hide ToRawPosition, Accurate;
  }
}
