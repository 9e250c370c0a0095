/** Bit arithmetic on `size_t` values: powers of two, `|`, `&` and the round-up that sizes the ring. */
module Bits {

  // 2^64, the number of values of a `size_t`
  const WORD: nat := 0x1_0000_0000_0000_0000

  // 2^63, the largest power of two a `size_t` holds
  const TOP: nat := 0x8000_0000_0000_0000

  /** What a `size_t` keeps of `n`. */
  function Wrap(n: int): (w: nat)
    ensures w < WORD
  {
    n % WORD
  }

  function Pow2(k: nat): (p: nat)
    ensures p >= 1
  {
    if k == 0 then 1 else 2 * Pow2(k - 1)
  }

  ghost predicate IsPow2(n: nat) {
    exists k: nat :: n == Pow2(k)
  }

  /** `a | b` */
  function Or(a: nat, b: nat): nat
    decreases a + b
  {
    if a == 0 && b == 0 then 0
    else (if a % 2 == 1 || b % 2 == 1 then 1 else 0) + 2 * Or(a / 2, b / 2)
  }

  /** `a & b` */
  function And(a: nat, b: nat): nat {
    if a == 0 || b == 0 then 0
    else (if a % 2 == 1 && b % 2 == 1 then 1 else 0) + 2 * And(a / 2, b / 2)
  }

  /** `n >> k` */
  function Shr(n: nat, k: nat): nat {
    if k == 0 then n else Shr(n / 2, k - 1)
  }

  lemma {:induction false} Pow2Add(a: nat, b: nat)
    ensures Pow2(a + b) == Pow2(a) * Pow2(b)
  {
    if a > 0 {
      Pow2Add(a - 1, b);
      assert Pow2(a + b) == 2 * (Pow2(a - 1) * Pow2(b)) == Pow2(a) * Pow2(b);
    }
  }

  lemma {:induction false} Pow2Monotone(a: nat, b: nat)
    requires a < b
    ensures 2 * Pow2(a) <= Pow2(b)
  {
    if a + 1 < b { Pow2Monotone(a, b - 1); }
  }

  lemma Pow2Order(a: nat, b: nat)
    ensures a <= b <==> Pow2(a) <= Pow2(b)
  {
    if a < b { Pow2Monotone(a, b); } else if b < a { Pow2Monotone(b, a); }
  }

  lemma WordIsPow2()
    ensures Pow2(64) == WORD && Pow2(63) == TOP
  {
    var k := 8;
    assert Pow2(k) == 256;
    Pow2Add(k, 8);
    k := 16;
    Pow2Add(k, 16);
    k := 32;
    assert Pow2(k) == 0x1_0000_0000;
    Pow2Add(k, k);
    k := 63;
    assert Pow2(k + 1) == 2 * Pow2(k);
  }

  lemma MulAtLeast(k: int, d: int)
    requires k >= 1 && d >= 0
    ensures k * d >= d
  {
    assert k * d == (k - 1) * d + d;
  }

  lemma NoMultipleBetween(k: int, d: int)
    requires -d < k * d < d
    ensures k == 0
  {
    MulMonotone(1, k, d);
    MulMonotone(k, -1, d);
  }

  lemma MulMonotone(a: int, b: int, c: int)
    requires c >= 0
    ensures a <= b ==> a * c <= b * c
  {
    if a <= b { assert b * c - a * c == (b - a) * c; }
  }

  /** Quotient and remainder are determined by the division equation. */
  lemma ModSplit(n: int, q: int, r: int, d: int)
    requires n == q * d + r
    requires 0 <= r < d
    ensures n % d == r && n / d == q
  {
    var k := q - n / d;
    assert k * d == n % d - r by {
      assert k * d == q * d - (n / d) * d;
      assert n == (n / d) * d + n % d;
    }
    NoMultipleBetween(k, d);
  }

  /** Every capacity up to 2^63 divides 2^64, so slot numbers survive the wrap of a counter. */
  lemma CapacityDividesWord(k: nat)
    requires k <= 63
    ensures Pow2(k) * Pow2(64 - k) == WORD && Pow2(k) < WORD
  {
    WordIsPow2();
    Pow2Monotone(k, 64);
    Pow2Add(k, 64 - k);
  }

  lemma WrapFactor(n: nat, a: nat, d: nat)
    requires a > 0 && d > 0
    ensures (n % (d * a)) % d == n % d
  {
    var w := d * a;
    assert w > 0 by { MulAtLeast(a, d); }
    var q, r := n / w, n % w;
    assert n == (q * a + r / d) * d + r % d by {
      assert n == q * w + r;
      assert q * w == (q * a) * d;
      assert r == (r / d) * d + r % d;
      assert (q * a + r / d) * d == (q * a) * d + (r / d) * d;
    }
    ModSplit(n, q * a + r / d, r % d, d);
  }

  /** A wrapped counter and its unwrapped value name the same slot. */
  lemma WrapKeepsSlot(n: nat, k: nat)
    requires k <= 63
    ensures (n % WORD) % Pow2(k) == n % Pow2(k)
  {
    CapacityDividesWord(k);
    WrapFactor(n, Pow2(64 - k), Pow2(k));
  }

  /** Two counters less than one capacity apart name different slots. */
  lemma DistinctSlots(a: nat, b: nat, d: nat)
    requires a < b < a + d
    ensures a % d != b % d
  {
    if a % d == b % d {
      var k := b / d - a / d;
      assert k * d == b - a by {
        assert k * d == (b / d) * d - (a / d) * d;
        assert a == (a / d) * d + a % d && b == (b / d) * d + b % d;
      }
      NoMultipleBetween(k, d);
    }
  }

  lemma {:induction false} AndMask(x: nat, k: nat)
    ensures And(x, Pow2(k) - 1) == x % Pow2(k)
  {
    if x > 0 && k > 0 {
      AndOddMask(x, Pow2(k - 1) - 1);
      AndMask(x / 2, k - 1);
      HalfMod(x, Pow2(k - 1));
    } else if k > 0 {
      ModSplit(x, 0, 0, Pow2(k));
    }
  }

  lemma AndOddMask(x: nat, m: nat)
    ensures And(x, 2 * m + 1) == x % 2 + 2 * And(x / 2, m)
  {
    assert (2 * m + 1) / 2 == m && (2 * m + 1) % 2 == 1;
  }

  lemma HalfMod(x: nat, p: nat)
    requires p > 0
    ensures x % (2 * p) == 2 * ((x / 2) % p) + x % 2
  {
    var h := x / 2;
    assert x == (h / p) * (2 * p) + (2 * (h % p) + x % 2) by {
      assert h == (h / p) * p + h % p;
      assert (h / p) * (2 * p) == 2 * ((h / p) * p);
    }
    ModSplit(x, h / p, 2 * (h % p) + x % 2, 2 * p);
  }

  lemma {:induction false} OrZero(a: nat)
    ensures Or(a, 0) == a
  {
    if a > 0 { OrZero(a / 2); }
  }

  lemma {:induction false} OrBounds(a: nat, b: nat, k: nat)
    requires a < Pow2(k) && b < Pow2(k)
    ensures b <= Or(a, b) < Pow2(k)
  {
    if a != 0 || b != 0 { OrBounds(a / 2, b / 2, k - 1); }
  }

  lemma {:induction false} OrHigh(h: nat, l: nat, m: nat, k: nat)
    requires l < Pow2(k) && m < Pow2(k)
    ensures Or(h * Pow2(k) + l, m) == h * Pow2(k) + Or(l, m)
  {
    if k == 0 {
      OrZero(h);
    } else {
      var p := Pow2(k - 1);
      var n := h * Pow2(k) + l;
      assert h * Pow2(k) == 2 * (h * p);
      assert n % 2 == l % 2 && n / 2 == h * p + l / 2;
      OrHigh(h, l / 2, m / 2, k - 1);
      if n == 0 && m == 0 { assert h * p == 0; }
      if n != 0 && l == 0 && m == 0 { assert Or(h * p, 0) == h * p by { OrZero(h * p); } }
    }
  }

  // The lowest value with `p` bits whose top `w` bits are ones
  function Leading(p: nat, w: nat): int {
    Pow2(p) - Pow2(if w < p then p - w else 0)
  }

  /** One line `n |= n >> w` doubles the run of ones at the top of `n`. */
  lemma SmearDoubles(n: nat, p: nat, w: nat)
    requires Leading(p, w) <= n < Pow2(p)
    ensures Leading(p, 2 * w) <= Or(n, Shr(n, w)) < Pow2(p)
  {
    hide Or, Shr, Pow2;
    if w >= p {
      SmearAllOnes(n, p, w);
    } else {
      var r := if w < p - w then p - w - w else 0;
      Pow2Add(p - w, w);
      Pow2Cover(p - w, w);
      SmearShifted(n, p - w, w, r);
    }
  }

  lemma SmearAllOnes(n: nat, p: nat, w: nat)
    requires p <= w && n < Pow2(p)
    ensures Or(n, Shr(n, w)) == n
  {
    Pow2Order(p, w);
    var rest := ShrSplit(n, w);
    MulMonotone(1, Shr(n, w), Pow2(w));
    OrZero(n);
  }

  lemma Pow2Cover(q: nat, w: nat)
    ensures Pow2(q) <= Pow2(if w < q then q - w else 0) * Pow2(w)
  {
    if w < q { Pow2Add(q - w, w); } else { Pow2Order(q, w); }
  }

  lemma SmearShifted(n: nat, q: nat, w: nat, r: nat)
    requires Pow2(q) * Pow2(w) - Pow2(q) <= n < Pow2(q) * Pow2(w)
    requires Pow2(q) <= Pow2(r) * Pow2(w)
    ensures Pow2(q) * Pow2(w) - Pow2(r) <= Or(n, Shr(n, w)) < Pow2(q) * Pow2(w)
  {
    var rest := ShrSplit(n, w);
    ShiftedRange(Shr(n, w), rest, Pow2(q), Pow2(w), Pow2(r));
    LessOne(Pow2(w), Pow2(q));
    OrBelow(Pow2(w) - 1, n, Shr(n, w), q);
  }

  lemma {:induction false} ShrSplit(n: nat, k: nat) returns (rest: nat)
    ensures n == Shr(n, k) * Pow2(k) + rest && rest < Pow2(k)
  {
    if k == 0 {
      rest := 0;
    } else {
      var half := n / 2;
      var r := ShrSplit(half, k - 1);
      rest := 2 * r + n % 2;
      assert Shr(n, k) == Shr(half, k - 1) && Pow2(k) == 2 * Pow2(k - 1) && n == 2 * half + n % 2;
      hide Shr, Pow2;
      DoubleProduct(Shr(half, k - 1), Pow2(k - 1));
    }
  }

  lemma DoubleProduct(s: nat, p: nat)
    ensures s * (2 * p) == 2 * (s * p)
  {
  }

  lemma LessOne(W: int, Q: int)
    ensures (W - 1) * Q == Q * W - Q
  {
  }

  lemma OrBelow(h: nat, n: nat, m: nat, q: nat)
    requires h * Pow2(q) <= n < h * Pow2(q) + Pow2(q) && m < Pow2(q)
    ensures h * Pow2(q) + m <= Or(n, m) < h * Pow2(q) + Pow2(q)
  {
    var low := n - h * Pow2(q);
    OrHigh(h, low, m, q);
    OrBounds(low, m, q);
  }

  lemma ShiftedRange(m: nat, rest: nat, Q: nat, W: nat, R: nat)
    requires rest < W && Q <= R * W
    requires Q * W - Q <= m * W + rest < Q * W
    ensures Q - R <= m < Q
  {
    MulMonotone(Q, m, W);
    MulMonotone(m + 1, Q - R, W);
    assert (m + 1) * W == m * W + W;
    assert (Q - R) * W == Q * W - R * W;
  }

  ghost predicate IsLeastPow2AtLeast(n: nat, r: nat) {
    && IsPow2(r)
    && n <= r
    && forall k: nat :: n <= Pow2(k) ==> r <= Pow2(k)
  }

  lemma {:induction false} BitLength(n: nat) returns (p: nat)
    requires n > 0
    ensures p > 0 && Pow2(p - 1) <= n < Pow2(p)
  {
    if n == 1 {
      p := 1;
      assert Pow2(1) == 2;
    } else {
      var q := BitLength(n / 2);
      p := q + 1;
    }
  }

  /** The six shift lines of `round_up_to_next_power_of_2`. */
  function Smear(n: nat): nat {
    var n1 := Or(n, Shr(n, 1));
    var n2 := Or(n1, Shr(n1, 2));
    var n3 := Or(n2, Shr(n2, 4));
    var n4 := Or(n3, Shr(n3, 8));
    var n5 := Or(n4, Shr(n4, 16));
    Or(n5, Shr(n5, 32))
  }

  lemma SmearFillsOnes(n: nat, p: nat)
    requires 0 < p <= 64 && Pow2(p - 1) <= n < Pow2(p)
    ensures Smear(n) == Pow2(p) - 1
  {
    var n1 := Or(n, Shr(n, 1));
    var n2 := Or(n1, Shr(n1, 2));
    var n3 := Or(n2, Shr(n2, 4));
    var n4 := Or(n3, Shr(n3, 8));
    var n5 := Or(n4, Shr(n4, 16));
    SmearDoubles(n, p, 1);
    SmearDoubles(n1, p, 2);
    SmearDoubles(n2, p, 4);
    SmearDoubles(n3, p, 8);
    SmearDoubles(n4, p, 16);
    SmearDoubles(n5, p, 32);
  }

  /** `round_up_to_next_power_of_2`, with the decrement and the increment wrapping as `size_t` does. */
  method RoundUpToNextPowerOf2(size: nat) returns (n: nat)
    requires size < WORD
    ensures 1 <= size <= TOP ==> IsLeastPow2AtLeast(size, n)
    ensures size == 0 || size > TOP ==> n == 0
  {
    n := if size == 0 then WORD - 1 else size - 1;
    ghost var before := n;
    n := Or(n, Shr(n, 1));
    n := Or(n, Shr(n, 2));
    n := Or(n, Shr(n, 4));
    n := Or(n, Shr(n, 8));
    n := Or(n, Shr(n, 16));
    n := Or(n, Shr(n, 32));
    n := Wrap(n + 1);
    RoundUpCorrect(size, before);
  }

  lemma RoundUpCorrect(size: nat, before: nat)
    requires size < WORD && before == (if size == 0 then WORD - 1 else size - 1)
    ensures 1 <= size <= TOP ==> IsLeastPow2AtLeast(size, Wrap(Smear(before) + 1))
    ensures size == 0 || size > TOP ==> Wrap(Smear(before) + 1) == 0
  {
    if before == 0 {
      SmearZero();
      LeastOne();
    } else {
      var p := SmearSum(before);
      RoundUpCases(size, before, p);
    }
  }

  lemma RoundUpCases(size: nat, before: nat, p: nat)
    requires size < WORD && 0 < before == (if size == 0 then WORD - 1 else size - 1)
    requires 0 < p <= 64 && Pow2(p - 1) <= before < Pow2(p)
    requires p < 64 ==> before < TOP && Pow2(p) < WORD
    requires p == 64 ==> Pow2(p) == WORD && before >= TOP
    ensures 1 <= size <= TOP ==> IsLeastPow2AtLeast(size, Wrap(Pow2(p)))
    ensures size == 0 || size > TOP ==> Wrap(Pow2(p)) == 0
  {
    if p < 64 { LeastBetween(size, p); }
  }

  lemma SmearSum(before: nat) returns (p: nat)
    requires 0 < before < WORD
    ensures 0 < p <= 64 && Pow2(p - 1) <= before < Pow2(p)
    ensures Smear(before) + 1 == Pow2(p)
    ensures p < 64 ==> before < TOP && Pow2(p) < WORD
    ensures p == 64 ==> Pow2(p) == WORD && before >= TOP
  {
    WordIsPow2();
    p := BitLength(before);
    Pow2Order(64, p - 1);
    SmearFillsOnes(before, p);
    Pow2Order(p, 63);
    Pow2Order(64, p);
  }

  lemma LeastOne()
    ensures Pow2(0) == 1 && IsLeastPow2AtLeast(1, 1)
  {
    assert Pow2(0) == 1;
  }

  lemma {:induction false} ShrZero(k: nat)
    ensures Shr(0, k) == 0
  {
    if k > 0 { ShrZero(k - 1); }
  }

  lemma SmearZero()
    ensures Smear(0) == 0
  {
    ShrZero(1);
    ShrZero(2);
    ShrZero(4);
    ShrZero(8);
    ShrZero(16);
    ShrZero(32);
  }

  lemma LeastBetween(n: nat, p: nat)
    requires 0 < p && Pow2(p - 1) < n <= Pow2(p)
    ensures IsLeastPow2AtLeast(n, Pow2(p))
  {
    forall k: nat | n <= Pow2(k)
      ensures Pow2(p) <= Pow2(k)
    {
      Pow2Order(k, p - 1);
      Pow2Order(p, k);
    }
  }
}
