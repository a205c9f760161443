/** The portable 64 by 128 bit multiply and shift: products put together from
    32-bit halves and sums carried by comparisons, all in 64-bit words that wrap
    around. */
module MulShift {
  import opened Arithmetic

  const W: nat := 0x1_0000_0000
  const U: nat := 0x1_0000_0000_0000_0000

  /** What a 64-bit word keeps. */
  function Wrap(x: int): (r: nat)
    ensures r < U
  {
    x % U
  }

  function Bit(b: bool): nat {
    if b then 1 else 0
  }

  // ---------------------------------------------------------------- product

  lemma {:induction false} HalvesBound(x: nat, y: nat)
    requires x < W && y < W
    ensures x * y <= (W - 1) * (W - 1)
  {
    Below(x, y, W);
    assert x * W <= (W - 1) * W;
    if x == W - 1 {
      Below(W - 1, y, W);
    }
  }

  lemma {:induction false} Expand(aHi: nat, aLo: nat, bHi: nat, bLo: nat)
    ensures (aHi * W + aLo) * (bHi * W + bLo) == aHi * bHi * W * W + (aHi * bLo + aLo * bHi) * W + aLo * bLo
  {
    var b := bHi * W + bLo;
    assert (aHi * W + aLo) * b == aHi * W * b + aLo * b;
    assert aHi * W * b == aHi * bHi * W * W + aHi * bLo * W;
    assert aLo * b == aLo * bHi * W + aLo * bLo;
  }

  const LIMIT: nat := 0xFFFF_FFFE_0000_0001  // the largest product of halves

  /** The four products put together; nothing overflows. */
  function Assemble(b00: nat, b01: nat, b10: nat, b11: nat): (r: (nat, nat))
    requires b00 <= LIMIT && b01 <= LIMIT && b10 <= LIMIT && b11 <= LIMIT
    requires b00 + (b01 + b10) * W + b11 * U < U * U
    ensures r.0 < U && r.1 < U && r.0 + r.1 * U == b00 + (b01 + b10) * W + b11 * U
  {
    var mid1 := Wrap(b10 + b00 / W);
    var mid2 := Wrap(b01 + mid1 % W);
    var pHi := Wrap(b11 + mid1 / W + mid2 / W);
    var pLo := (mid2 % W) * W + b00 % W;
    assert mid1 == b10 + b00 / W;
    assert mid2 == b01 + mid1 % W;
    assert b00 == (b00 / W) * W + b00 % W && mid1 == (mid1 / W) * W + mid1 % W && mid2 == (mid2 / W) * W + mid2 % W;
    assert pLo + (b11 + mid1 / W + mid2 / W) * U == b00 + (b01 + b10) * W + b11 * U;
    (pLo, pHi)
  }

  /** The 128-bit product from four products of halves: low and high word. */
  function Umul128(a: nat, b: nat): (r: (nat, nat))
    requires a < U && b < U
    ensures r.0 < U && r.1 < U && r.0 + r.1 * U == a * b
  {
    HalvesOfProduct(a, b);
    Assemble((a % W) * (b % W), (a % W) * (b / W), (a / W) * (b % W), (a / W) * (b / W))
  }

  lemma {:induction false} HalvesOfProduct(a: nat, b: nat)
    requires a < U && b < U
    ensures var aLo, aHi, bLo, bHi := a % W, a / W, b % W, b / W;
            && aLo * bLo <= LIMIT && aLo * bHi <= LIMIT && aHi * bLo <= LIMIT && aHi * bHi <= LIMIT
            && aLo * bLo + (aLo * bHi + aHi * bLo) * W + aHi * bHi * U == a * b < U * U
  {
    var aLo, aHi, bLo, bHi := a % W, a / W, b % W, b / W;
    HalvesBound(aLo, bLo);
    HalvesBound(aLo, bHi);
    HalvesBound(aHi, bLo);
    HalvesBound(aHi, bHi);
    Expand(aHi, aLo, bHi, bLo);
    assert a == aHi * W + aLo && b == bHi * W + bLo;
    WordsBound(a, b);
  }

  lemma {:induction false} WordsBound(a: nat, b: nat)
    requires a < U && b < U
    ensures a * b < U * U
  {
    Below(a, b, U);
    assert a * U < U * U;
  }

  // ------------------------------------------------------------------ shift

  lemma {:induction false} SplitWord(dist: nat)
    requires dist <= 64
    ensures Pow(2, dist) * Pow(2, 64 - dist) == U
  {
    PowAdd(2, dist, 64 - dist);
    TwoTo64();
  }

  /** The low word of a double word shifted right.  The two parts of the C
      expression have no bit in common, so `|` is written as a sum. */
  function ShiftRight128(lo: nat, hi: nat, dist: nat): (r: nat)
    requires lo < U && hi < U && 0 < dist < 64
    ensures r == Wrap((hi * U + lo) / Pow(2, dist))
  {
    ShiftIsDivision(lo, hi, dist);
    Wrap(hi * Pow(2, 64 - dist)) + lo / Pow(2, dist)
  }

  lemma {:induction false} ShiftIsDivision(lo: nat, hi: nat, dist: nat)
    requires lo < U && 0 < dist < 64
    ensures Wrap(hi * Pow(2, 64 - dist)) + lo / Pow(2, dist) == Wrap((hi * U + lo) / Pow(2, dist))
  {
    SplitWord(dist);
    hide *;
    ShiftedBoth(lo, hi, Pow(2, dist), Pow(2, 64 - dist));
  }

  lemma {:induction false} ShiftedBoth(lo: nat, hi: nat, d: nat, e: nat)
    requires lo < U && d > 0 && d * e == U
    ensures Wrap(hi * e) + lo / d == Wrap((hi * U + lo) / d)
  {
    ShiftedQuotient(lo, hi, d, e);
    ShiftedWrap(lo / d, hi, d, e);
    hide *;
  }

  lemma {:induction false} ShiftedQuotient(lo: nat, hi: nat, d: nat, e: nat)
    requires lo < U && d > 0 && d * e == U
    ensures (hi * U + lo) / d == hi * e + lo / d && lo / d < e
  {
    var q, r := lo / d, lo % d;
    Grouped(hi, d, e);
    assert d * (hi * e + q) == d * (hi * e) + d * q;
    DivMod(hi * U + lo, d, hi * e + q, r);
    QuotientBelow(d, e, q, r);
  }

  lemma {:induction false} ShiftedWrap(q: nat, hi: nat, d: nat, e: nat)
    requires d > 0 && d * e == U && q < e
    ensures Wrap(hi * e) + q == Wrap(hi * e + q)
  {
    var t, s := hi / d, hi % d;
    Grouped2(d, e, t, s);
    Below(e, s, d);
    assert e * d == U;
    DivMod(hi * e, U, t, e * s);
    DivMod(hi * e + q, U, t, e * s + q);
  }

  lemma {:induction false} Grouped(hi: nat, d: nat, e: nat)
    requires d * e == U
    ensures hi * U == d * (hi * e)
  {
    assert hi * (d * e) == d * (hi * e);
  }

  lemma {:induction false} Grouped2(d: nat, e: nat, t: nat, s: nat)
    requires d * e == U
    ensures (d * t + s) * e == U * t + e * s
  {
    assert (d * t + s) * e == d * t * e + s * e;
    assert d * t * e == (d * e) * t;
  }

  lemma {:induction false} QuotientBelow(d: nat, e: nat, q: nat, r: nat)
    requires d > 0 && d * q + r < d * e
    ensures q < e
  {
    assert d * (q - e) < 0;
    if q >= e {
      AtLeastOnce(q - e, d);
    }
  }

  // ---------------------------------------------------------- multiply, shift

  /** What every version is to compute: the low word of `k * mul / 2^j`. */
  function Exact(k: nat, mul0: nat, mul1: nat, j: nat): nat
  {
    Wrap((k * (mul0 + mul1 * U)) / Pow(2, j))
  }

  /** A number of three words. */
  function Value(lo: nat, mid: nat, hi: nat): nat {
    lo + mid * U + hi * U * U
  }

  const MUL1_LIMIT: nat := 0x4000_0000_0000_0000

  /** Dropping the lowest word and shifting is one division. */
  lemma {:induction false} DropAndShift(lo: nat, mid: nat, hi: nat, dist: nat)
    requires lo < U && mid < U && hi < U && 0 < dist < 64
    ensures ShiftRight128(mid, hi, dist) == Wrap(Value(lo, mid, hi) / Pow(2, 64 + dist))
  {
    TwoTo64();
    PowAdd(2, 64, dist);
    hide Pow;
    DivMod(Value(lo, mid, hi), U, mid + hi * U, lo);
    DivDiv(Value(lo, mid, hi), U, Pow(2, dist));
  }

  /** Halving number and divisor alike. */
  lemma {:induction false} HalveBoth(x: nat, j: nat)
    requires j > 0
    ensures (2 * x) / Pow(2, j) == x / Pow(2, j - 1)
  {
    var d := Pow(2, j - 1);
    var q, r := x / d, x % d;
    assert Pow(2, j) == 2 * d;
    assert 2 * x == (2 * d) * q + 2 * r;
    DivMod(2 * x, 2 * d, q, 2 * r);
  }

  /** Two products, one a word above the other, added with a carry. */
  function Combined(low: (nat, nat), high: (nat, nat)): (r: (nat, nat, nat))
    requires low.0 < U && low.1 < U && high.0 < U && high.1 < MUL1_LIMIT - 1
    ensures r.0 < U && r.1 < U && r.2 < MUL1_LIMIT
    ensures Value(r.0, r.1, r.2) == (low.0 + low.1 * U) + (high.0 + high.1 * U) * U
  {
    var lo, tmp := low.0, low.1;
    var mid := Wrap(tmp + high.0);
    var hi := Wrap(high.1 + Bit(mid < tmp));
    (lo, mid, hi)
  }

  /** The product of a word and a double word. */
  function Product(m: nat, mul0: nat, mul1: nat): (r: (nat, nat, nat))
    requires m < U && mul0 < U && mul1 < MUL1_LIMIT
    ensures r.0 < U && r.1 < U && r.2 < MUL1_LIMIT && Value(r.0, r.1, r.2) == m * (mul0 + mul1 * U)
  {
    ProductBound(m, mul1, Umul128(m, mul1).0, Umul128(m, mul1).1);
    Distribute(m, mul0, mul1);
    hide Umul128;
    Combined(Umul128(m, mul0), Umul128(m, mul1))
  }

  lemma {:induction false} ProductBound(m: nat, mul1: nat, lo: nat, hi: nat)
    requires m < U && mul1 < MUL1_LIMIT && lo + hi * U == m * mul1
    ensures hi < MUL1_LIMIT - 1
  {
    Below(mul1, m, U);
    assert mul1 * m + mul1 <= mul1 * U;
  }

  lemma {:induction false} Distribute(m: nat, mul0: nat, mul1: nat)
    ensures m * (mul0 + mul1 * U) == m * mul0 + m * mul1 * U
  {
    assert m * (mul1 * U) == m * mul1 * U;
  }

  /** The separate version is exact. */
  function MulShift64(m: nat, mul0: nat, mul1: nat, j: nat): (r: nat)
    requires m < U && mul0 < U && mul1 < MUL1_LIMIT && 64 < j < 128
    ensures r == Exact(m, mul0, mul1, j)
  {
    var p := Product(m, mul0, mul1);
    DropAndShift(p.0, p.1, p.2, j - 64);
    ShiftRight128(p.1, p.2, j - 64)
  }

  // -------------------------------------------------------------- carry chains

  /** Adding a double word to three words. */
  function Plus(lo: nat, mid: nat, hi: nat, a0: nat, a1: nat): (r: (nat, nat, nat))
    requires lo < U && mid < U && hi < U && a0 < U && a1 < MUL1_LIMIT && hi + 1 < U
    ensures r.0 < U && r.1 < U && r.2 < U && Value(r.0, r.1, r.2) == Value(lo, mid, hi) + (a0 + a1 * U)
  {
    var lo2 := Wrap(lo + a0);
    var mid2 := Wrap(mid + a1 + Bit(lo2 < lo));
    var hi2 := Wrap(hi + Bit(mid2 < mid));
    (lo2, mid2, hi2)
  }

  /** A difference of two words borrows when it exceeds what it was taken from. */
  lemma {:induction false} Borrow(x: nat, y: nat)
    requires x < U && y < U
    ensures Wrap(x - y) == x - y + Bit(x < y) * U && (Wrap(x - y) > x <==> x < y)
  {
  }

  /** Taking a double word from three words. */
  function Minus(lo: nat, mid: nat, hi: nat, a0: nat, a1: nat): (r: (nat, nat, nat))
    requires lo < U && mid < U && hi < U && a0 < U && a1 < MUL1_LIMIT && Value(lo, mid, hi) >= a0 + a1 * U
    ensures r.0 < U && r.1 < U && r.2 < U && Value(r.0, r.1, r.2) == Value(lo, mid, hi) - (a0 + a1 * U)
  {
    Borrow(lo, a0);
    var lo3 := Wrap(lo - a0);
    Borrow(mid, a1 + Bit(lo3 > lo));
    var mid3 := Wrap(mid - a1 - Bit(lo3 > lo));
    Borrow(hi, Bit(mid3 > mid));
    var hi3 := Wrap(hi - Bit(mid3 > mid));
    hide Wrap;
    (lo3, mid3, hi3)
  }

  /** The carry that doubling loses: the middle word comes out as it went in. */
  predicate LosesCarry(lo: nat, mid: nat) {
    mid == U - 1 && lo >= U / 2
  }

  /** Doubling three words, with each carry seen by a comparison. */
  function Doubled(lo: nat, mid: nat, hi: nat): (r: (nat, nat, nat))
    requires lo < U && mid < U && hi < MUL1_LIMIT
    ensures r.0 < U && r.1 < U && r.2 < U
    ensures Value(r.0, r.1, r.2) == 2 * Value(lo, mid, hi) - (if LosesCarry(lo, mid) then U * U else 0)
  {
    var lo3 := Wrap(lo + lo);
    assert lo3 == lo + lo - Bit(lo >= U / 2) * U && (lo3 < lo <==> lo >= U / 2);
    var mid3 := Wrap(mid + mid + Bit(lo3 < lo));
    assert mid3 == mid + mid + Bit(lo >= U / 2) - Bit(mid >= U / 2) * U;
    assert mid3 < mid <==> mid >= U / 2 && !LosesCarry(lo, mid);
    var hi3 := Wrap(hi + hi + Bit(mid3 < mid));
    (lo3, mid3, hi3)
  }

  /** The fused version: `vr`, `vp` and `vm` from one product. */
  function MulShiftAll64(m: nat, mul0: nat, mul1: nat, j: nat, mmShift: nat): (r: (nat, nat, nat))
    requires 1 <= m <= 0x20_0000_0000_0000 && mul0 < U && mul1 < MUL1_LIMIT && 66 <= j <= 127 && mmShift <= 1
  {
    var p := Product(2 * m, mul0, mul1);
    var lo, mid, hi := p.0, p.1, p.2;
    var plus := Plus(lo, mid, hi, mul0, mul1);
    var vp := ShiftRight128(plus.1, plus.2, j - 64 - 1);
    MinusFits(2 * m, mul0, mul1);
    var vm :=
      if mmShift == 1 then
        var minus := Minus(lo, mid, hi, mul0, mul1);
        ShiftRight128(minus.1, minus.2, j - 64 - 1)
      else
        var twice := Doubled(lo, mid, hi);
        var minus := Minus(twice.0, twice.1, twice.2, mul0, mul1);
        ShiftRight128(minus.1, minus.2, j - 64);
    (ShiftRight128(mid, hi, j - 64 - 1), vp, vm)
  }

  lemma {:induction false} MinusFits(m: nat, mul0: nat, mul1: nat)
    requires m >= 1 && mul0 < U && mul1 < MUL1_LIMIT
    ensures m * (mul0 + mul1 * U) >= mul0 + mul1 * U
  {
    AtLeastOnce(m, mul0 + mul1 * U);
  }

  /** The product whose doubling loses a carry. */
  predicate CarryIsLost(m: nat, mul0: nat, mul1: nat)
    requires m < U / 2 && mul0 < U && mul1 < MUL1_LIMIT
  {
    var p := Product(2 * m, mul0, mul1);
    LosesCarry(p.0, p.1)
  }

  /** Times an odd or even factor, by one multiple more or less. */
  lemma {:induction false} Times(m: nat, f: nat)
    requires m >= 1
    ensures 2 * (m * f) == (2 * m) * f
    ensures m * f + f == (m + 1) * f && m * f - f == (m - 1) * f
  {
  }

  /** `vr` and `vp`, and `vm` for a symmetric interval, are exact. */
  lemma {:induction false} FusedIsExact(m: nat, mul0: nat, mul1: nat, j: nat, mmShift: nat)
    requires 1 <= m <= 0x20_0000_0000_0000 && mul0 < U && mul1 < MUL1_LIMIT && 66 <= j <= 127 && mmShift <= 1
    ensures var r := MulShiftAll64(m, mul0, mul1, j, mmShift);
            && r.0 == Exact(4 * m, mul0, mul1, j)
            && r.1 == Exact(4 * m + 2, mul0, mul1, j)
            && (mmShift == 1 ==> r.2 == Exact(4 * m - 2, mul0, mul1, j))
  {
    hide Product, Plus, Minus, ShiftRight128, Exact;
    var f := mul0 + mul1 * U;
    var p := Product(2 * m, mul0, mul1);
    var lo, mid, hi := p.0, p.1, p.2;
    ShiftedOnce(lo, mid, hi, 2 * m, mul0, mul1, j);
    var plus := Plus(lo, mid, hi, mul0, mul1);
    Times(2 * m, f);
    ShiftedOnce(plus.0, plus.1, plus.2, 2 * m + 1, mul0, mul1, j);
    if mmShift == 1 {
      MinusFits(2 * m, mul0, mul1);
      var minus := Minus(lo, mid, hi, mul0, mul1);
      ShiftedOnce(minus.0, minus.1, minus.2, 2 * m - 1, mul0, mul1, j);
    }
  }

  lemma {:induction false} TwiceTimes(k: nat, f: nat)
    ensures 2 * (k * f) == (2 * k) * f
  {
  }

  lemma {:induction false} ShiftedOnce(lo: nat, mid: nat, hi: nat, k: nat, mul0: nat, mul1: nat, j: nat)
    requires lo < U && mid < U && hi < U && 66 <= j <= 127 && Value(lo, mid, hi) == k * (mul0 + mul1 * U)
    ensures ShiftRight128(mid, hi, j - 65) == Exact(2 * k, mul0, mul1, j)
  {
    var f := mul0 + mul1 * U;
    hide ShiftRight128, Pow;
    DropAndShift(lo, mid, hi, j - 65);
    HalveBoth(k * f, j);
    TwiceTimes(k, f);
    hide Value;
  }

  /** For an asymmetric interval `vm` is exact if and only if doubling loses no
      carry. */
  lemma {:induction false} FusedLowerBoundIsExactIff(m: nat, mul0: nat, mul1: nat, j: nat)
    requires 1 <= m <= 0x20_0000_0000_0000 && mul0 < U && mul1 < MUL1_LIMIT && 66 <= j <= 127
    ensures MulShiftAll64(m, mul0, mul1, j, 0).2 == Exact(4 * m - 1, mul0, mul1, j) <==> !CarryIsLost(m, mul0, mul1)
  {
    var lo, mid, hi := LowerWords(m, mul0, mul1, j);
    QuadrupleLess(m, mul0 + mul1 * U);
    hide MulShiftAll64, CarryIsLost, ShiftRight128, Exact, Value;
    LostCarryIsSeen(lo, mid, hi, 4 * m - 1, mul0, mul1, j, CarryIsLost(m, mul0, mul1));
  }

  /** The three words that the lower bound is shifted out of. */
  lemma {:induction false} LowerWords(m: nat, mul0: nat, mul1: nat, j: nat) returns (lo: nat, mid: nat, hi: nat)
    requires 1 <= m <= 0x20_0000_0000_0000 && mul0 < U && mul1 < MUL1_LIMIT && 66 <= j <= 127
    ensures lo < U && mid < U && hi < U && MulShiftAll64(m, mul0, mul1, j, 0).2 == ShiftRight128(mid, hi, j - 64)
    ensures var f := mul0 + mul1 * U;
            Value(lo, mid, hi) == 2 * ((2 * m) * f) - f - (if CarryIsLost(m, mul0, mul1) then U * U else 0)
  {
    MinusFits(2 * m, mul0, mul1);
    hide Product, Minus, Doubled, ShiftRight128, Pow;
    var p := Product(2 * m, mul0, mul1);
    var twice := Doubled(p.0, p.1, p.2);
    var minus := Minus(twice.0, twice.1, twice.2, mul0, mul1);
    lo, mid, hi := minus.0, minus.1, minus.2;
  }

  /** Three words that should be a product, less the carry if that is lost: the
      shifted word is right if and only if it is not. */
  lemma {:induction false} LostCarryIsSeen(lo: nat, mid: nat, hi: nat, k: nat, mul0: nat, mul1: nat, j: nat, lost: bool)
    requires lo < U && mid < U && hi < U && 66 <= j <= 127
    requires Value(lo, mid, hi) == k * (mul0 + mul1 * U) - (if lost then U * U else 0)
    ensures ShiftRight128(mid, hi, j - 64) == Exact(k, mul0, mul1, j) <==> !lost
  {
    DropAndShift(lo, mid, hi, j - 64);
    hide ShiftRight128, Pow, Wrap;
    if lost {
      LostCarryShows(Value(lo, mid, hi), j);
    }
  }

  lemma {:induction false} QuadrupleLess(m: nat, f: nat)
    requires m >= 1
    ensures 2 * ((2 * m) * f) - f == (4 * m - 1) * f
  {
    Times(2 * m, f);
    Times(4 * m, f);
  }

  /** A missing carry changes the shifted word. */
  lemma {:induction false} LostCarryShows(x: nat, j: nat)
    requires 66 <= j <= 127
    ensures Wrap(x / Pow(2, j)) != Wrap((x + U * U) / Pow(2, j))
  {
    var d, e := Pow(2, j), Pow(2, 128 - j);
    PowAdd(2, j, 128 - j);
    PowAdd(2, 64, 64);
    TwoTo64();
    assert d * e == U * U;
    PowAdd(2, 128 - j, j - 64);
    NotMore2(e, j - 64);
    hide Pow;
    AddedQuotient(x, d, e);
    WrapsDiffer(x / d, e);
  }

  lemma {:induction false} AddedQuotient(x: nat, d: nat, e: nat)
    requires d > 0 && d * e == U * U
    ensures (x + U * U) / d == x / d + e
  {
    Recompose(x, d);
    assert d * (x / d + e) == d * (x / d) + d * e;
    DivMod(x + U * U, d, x / d + e, x % d);
  }

  lemma {:induction false} WrapsDiffer(q: nat, e: nat)
    requires 0 < e < U
    ensures Wrap(q) != Wrap(q + e)
  {
    Recompose(q, U);
    Recompose(q + e, U);
  }

  lemma {:induction false} NotMore2(e: nat, k: nat)
    requires e * Pow(2, k) == U && k > 0 && e > 0
    ensures e < U
  {
    assert Pow(2, k) >= 2;
    Below(e, 1, Pow(2, k));
  }

  /** An asymmetric interval belongs to a power of two, so that `m` is 2^52 there:
      then the carry is lost exactly for the factors with these bits. */
  lemma {:induction false} CarryIsLostIff(mul0: nat, mul1: nat)
    requires mul0 < U && mul1 < MUL1_LIMIT
    ensures CarryIsLost(POWER_OF_TWO, mul0, mul1) <==> mul1 % 2048 == 2047 && mul0 / 1024 == 0x3F_FFFF_FFFF_FFFF
  {
    var p := Product(2 * POWER_OF_TWO, mul0, mul1);
    hide Product;
    var lo, mid := mul0 % 2048 * 0x20_0000_0000_0000, mul0 / 2048 + mul1 % 2048 * 0x20_0000_0000_0000;
    SameWords(p.0, p.1, p.2, lo, mid, mul1 / 2048);
  }

  const POWER_OF_TWO: nat := 0x10_0000_0000_0000

  lemma {:induction false} SameWords(lo: nat, mid: nat, hi: nat, lo': nat, mid': nat, hi': nat)
    requires lo < U && mid < U && lo' < U && mid' < U && Value(lo, mid, hi) == Value(lo', mid', hi')
    ensures lo == lo' && mid == mid' && hi == hi'
  {
    var x := Value(lo, mid, hi);
    DivMod(x, U, mid + hi * U, lo);
    DivMod(x, U, mid' + hi' * U, lo');
    DivMod(x / U, U, hi, mid);
    DivMod(x / U, U, hi', mid');
  }

  /** There are such factors, and with them every shift gives a wrong word. */
  lemma {:induction false} CarryCanBeLost(j: nat)
    requires 66 <= j <= 127
    ensures CarryIsLost(POWER_OF_TWO, U - 1, MUL1_LIMIT - 1)
    ensures MulShiftAll64(POWER_OF_TWO, U - 1, MUL1_LIMIT - 1, j, 0).2
            != Exact(4 * POWER_OF_TWO - 1, U - 1, MUL1_LIMIT - 1, j)
  {
    hide CarryIsLost, MulShiftAll64, Exact;
    CarryIsLostIff(U - 1, MUL1_LIMIT - 1);
    FusedLowerBoundIsExactIff(POWER_OF_TWO, U - 1, MUL1_LIMIT - 1, j);
  }
}
