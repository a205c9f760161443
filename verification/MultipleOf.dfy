/** `multipleOf` decided exactly on decimal numbers, by counting twos and fives
    and taking one remainder. */
module MultipleOf {
  import opened Arithmetic
  import opened Divisibility

  /** `vm * 10^ve` is an integer multiple of `mm * 10^me`, with the powers of ten
      moved to one side. */
  ghost predicate IsMultiple(vm: int, ve: int, mm: nat, me: int)
    requires mm > 0
  {
    if ve >= me then (vm * Pow(10, ve - me)) % mm == 0
    else Pow(10, me - ve) > 0 && vm % (mm * Pow(10, me - ve)) == 0
  }

  lemma {:induction false} StaysOdd(c: nat, m: nat)
    requires m % 2 != 0
    ensures (Pow(5, c) * m) % 2 != 0
    decreases c
  {
    if c > 0 {
      StaysOdd(c - 1, m);
      PowStep(5, c, m);
    }
  }

  /** Numbers given by their twos, their fives and a part without either. */
  function Made(twos: nat, fives: nat, part: nat): nat {
    Pow(2, twos) * (Pow(5, fives) * part)
  }

  lemma {:induction false} MadeDivides(a: nat, c: nat, m: nat, p: nat, q: nat, w: nat)
    requires m % 2 != 0 && m % 5 != 0 && w % 2 != 0 && w % 5 != 0
    ensures Made(a, c, m) > 0
    ensures Made(p, q, w) % Made(a, c, m) == 0 <==> a <= p && c <= q && w % m == 0
  {
    StaysOdd(c, m);
    StaysOdd(q, w);
    Positive(Pow(5, c), m);
    Positive(Pow(2, a), Pow(5, c) * m);
    Strip(2, a, p, Pow(5, c) * m, Pow(5, q) * w);
    Strip(5, c, q, m, w);
  }

  lemma {:induction false} Tens(k: nat)
    ensures Pow(10, k) == Pow(2, k) * Pow(5, k)
  {
    if k > 0 {
      Tens(k - 1);
      var x, y := Pow(2, k - 1), Pow(5, k - 1);
      assert 10 * (x * y) == (2 * x) * (5 * y);
    }
  }

  /** Multiplying by a power of ten adds to both counts. */
  lemma {:induction false} MadeShifts(a: nat, c: nat, m: nat, k: nat)
    ensures Made(a, c, m) * Pow(10, k) == Made(a + k, c + k, m)
  {
    Tens(k);
    PowAdd(2, a, k);
    PowAdd(5, c, k);
    Regroup(Pow(2, a), Pow(5, c), m, Pow(2, k), Pow(5, k));
  }

  lemma {:induction false} Regroup(x: nat, y: nat, m: nat, s: nat, t: nat)
    ensures (x * (y * m)) * (s * t) == (x * s) * ((y * t) * m)
  {
    assert (x * (y * m)) * (s * t) == ((x * s) * (y * m)) * t by {
      assert (x * (y * m)) * (s * t) == ((x * (y * m)) * s) * t;
      assert (x * (y * m)) * s == (x * s) * (y * m);
    }
    assert ((x * s) * (y * m)) * t == (x * s) * ((y * m) * t);
    assert (y * m) * t == (y * t) * m;
  }

  lemma {:induction false} OnlyMagnitude(v: int, d: nat)
    requires d > 0
    ensures v % d == 0 <==> (-v) % d == 0
  {
    if v % d == 0 {
      var q := v / d;
      assert -v == d * (-q);
      Multiple(d, -q);
    }
    if (-v) % d == 0 {
      var q := (-v) / d;
      assert v == d * (-q);
      Multiple(d, -q);
    }
  }

  /** The decision for numbers in that form. */
  lemma {:induction false} Decide(mag: nat, u2: nat, u5: nat, w: nat, mm: nat, b: nat, c: nat, m: nat, ve: int, me: int)
    requires mag == Made(u2, u5, w) && mm == Made(b, c, m)
    requires m % 2 != 0 && m % 5 != 0 && w % 2 != 0 && w % 5 != 0
    ensures mm > 0
    ensures IsMultiple(mag, ve, mm, me) <==> ve - me + u2 >= b && ve - me + u5 >= c && mag % m == 0
  {
    MadeDivides(b, c, m, u2, u5, w);
    MadeDivides(0, 0, m, u2, u5, w);
    if ve >= me {
      MadeShifts(u2, u5, w, ve - me);
      MadeDivides(b, c, m, u2 + (ve - me), u5 + (ve - me), w);
    } else {
      MadeShifts(b, c, m, me - ve);
      MadeDivides(b + (me - ve), c + (me - ve), m, u2, u5, w);
    }
  }

  lemma {:induction false} SignIsDropped(vm: int, ve: int, mm: nat, me: int)
    requires mm > 0
    ensures IsMultiple(vm, ve, mm, me) <==> IsMultiple(-vm, ve, mm, me)
  {
    if ve >= me {
      assert -vm * Pow(10, ve - me) == -(vm * Pow(10, ve - me));
      OnlyMagnitude(vm * Pow(10, ve - me), mm);
    } else {
      assert mm * Pow(10, me - ve) > 0;
      OnlyMagnitude(vm, mm * Pow(10, me - ve));
    }
  }

  lemma {:induction false} ZeroIsMultiple(ve: int, mm: nat, me: int)
    requires mm > 0
    ensures IsMultiple(0, ve, mm, me)
  {
    if ve < me {
      assert mm * Pow(10, me - ve) > 0;
    } else {
      assert 0 * Pow(10, ve - me) == 0;
    }
  }

  // -------------------------------------------------------------- the code

  const INT64: int := 0x8000_0000_0000_0000
  const COUNT_LIMIT: nat := 64

  lemma {:induction false} DividedOut(f: nat, count: nat, part: nat)
    requires (f == 2 || f == 5) && part % f == 0
    ensures Pow(f, count) * part == Pow(f, count + 1) * (part / f)
    ensures part > 0 ==> 0 < part / f < part
  {
    PowStep(f, count + 1, part / f);
    Exchange(Pow(f, count), f, part / f);
    assert part == f * (part / f);
  }

  /** How often `f` divides `n`. */
  function CountOf(f: nat, n: nat): nat
    requires (f == 2 || f == 5) && n > 0
  {
    if n % f != 0 then 0 else 1 + CountOf(f, n / f)
  }

  lemma {:induction false} CountFound(f: nat, c: nat, m: nat)
    requires (f == 2 || f == 5) && m % f != 0
    ensures Pow(f, c) * m > 0 && CountOf(f, Pow(f, c) * m) == c
    decreases c
  {
    if c > 0 {
      CountFound(f, c - 1, m);
      PowStep(f, c, m);
      hide Pow;
      CountStep(f, Pow(f, c - 1) * m);
    } else {
      assert 1 * m == m;
    }
  }

  lemma {:induction false} CountStep(f: nat, n: nat)
    requires (f == 2 || f == 5) && n > 0
    ensures CountOf(f, f * n) == 1 + CountOf(f, n)
  {
  }

  lemma {:induction false} NoFives(b: nat, m: nat)
    requires m % 5 != 0
    ensures (Pow(2, b) * m) % 5 != 0
    decreases b
  {
    if b > 0 {
      NoFives(b - 1, m);
      PowStep(2, b, m);
    }
  }

  /** The counts of a number in its form. */
  lemma {:induction false} CountsOfMade(b: nat, c: nat, m: nat)
    requires m % 2 != 0 && m % 5 != 0
    ensures Made(b, c, m) > 0 && CountOf(2, Made(b, c, m)) == b && CountOf(5, Made(b, c, m)) == c
  {
    StaysOdd(c, m);
    CountFound(2, b, Pow(5, c) * m);
    NoFives(b, m);
    Exchange(Pow(2, b), Pow(5, c), m);
    CountFound(5, c, Pow(2, b) * m);
  }

  /** Divides out a prime factor, at most `limit` times. */
  method CountFactor(n: nat, f: nat, limit: nat) returns (count: nat, part: nat)
    requires f == 2 || f == 5
    ensures n == Pow(f, count) * part && count <= limit
    ensures n > 0 && n < Pow(f, limit) ==> part % f != 0
    ensures n == 0 ==> count == limit
  {
    count, part := 0, n;
    while part % f == 0 && count < limit
      invariant n == Pow(f, count) * part && count <= limit && (n == 0 <==> part == 0)
    {
      DividedOut(f, count, part);
      hide Pow;
      part := part / f;
      count := count + 1;
    }
    if part > 0 {
      NotMore(f, count, part);
    }
  }

  /** `n` is `f` to the power `count` times `part`. */
  predicate Splits(n: nat, f: nat, count: nat, part: nat) {
    n == Pow(f, count) * part
  }

  method StripFactor(n: nat, f: nat) returns (count: nat, part: nat)
    requires (f == 2 || f == 5) && n > 0
    ensures n == Pow(f, count) * part && part % f != 0 && 0 < part <= n
    ensures f == 5 && n % 2 != 0 ==> part % 2 != 0
  {
    count, part := 0, n;
    assert Splits(n, f, 0, n);
    while part % f == 0
      invariant Splits(n, f, count, part) && 0 < part <= n
      invariant f == 5 && n % 2 != 0 ==> part % 2 != 0
      decreases part
    {
      SplitsMore(n, f, count, part);
      hide Splits;
      part := part / f;
      count := count + 1;
    }
  }

  lemma {:induction false} SplitsMore(n: nat, f: nat, count: nat, part: nat)
    requires (f == 2 || f == 5) && part % f == 0 && part > 0 && Splits(n, f, count, part)
    ensures Splits(n, f, count + 1, part / f) && 0 < part / f < part
    ensures f == 5 && part % 2 != 0 ==> part / f % 2 != 0
  {
    DividedOut(f, count, part);
  }

  lemma {:induction false} FactorStays(f: nat, x: nat, w: nat)
    requires f > 0
    ensures w % f == 0 ==> (x * w) % f == 0
  {
    if w % f == 0 {
      var y := w / f;
      assert w == f * y;
      assert x * (f * y) == f * (x * y);
      Multiple(f, x * y);
    }
  }

  /** Counting twos in one copy and fives in another finds the form. */
  lemma {:induction false} FormFound(mag: nat, u2: nat, odd: nat, u5: nat, rest: nat) returns (w: nat)
    requires mag == Pow(2, u2) * odd && odd % 2 != 0 && mag == Pow(5, u5) * rest && rest % 5 != 0
    ensures mag == Made(u2, u5, w) && w % 2 != 0 && w % 5 != 0
  {
    var x, y := Pow(2, u2), Pow(5, u5);
    FivesOf(odd, u2, u5, rest);
    w := odd / y;
    assert odd == y * w;
    FactorStays(2, y, w);
    assert x * (y * w) == y * (x * w);
    CancelMul(y, x * w, rest);
    FactorStays(5, x, w);
  }

  lemma {:induction false} FivesOf(odd: nat, u2: nat, u5: nat, rest: nat)
    requires Pow(2, u2) * odd == Pow(5, u5) * rest
    ensures odd % Pow(5, u5) == 0
  {
    Multiple(Pow(5, u5), rest);
    SkipTwos(u2, odd, u5);
  }

  lemma {:induction false} SkipTwos(u2: nat, n: nat, u5: nat)
    requires (Pow(2, u2) * n) % Pow(5, u5) == 0
    ensures n % Pow(5, u5) == 0
    decreases u2
  {
    if u2 > 0 {
      PowStep(2, u2, n);
      StaysOdd(u5, 1);
      Skip(2, Pow(5, u5), Pow(2, u2 - 1) * n);
      SkipTwos(u2 - 1, n, u5);
    }
  }

  lemma {:induction false} FivesFit()
    ensures Pow(5, 64) > 2 * INT64
  {
    assert Pow(5, 8) == 390625;
    PowAdd(5, 8, 8);
    PowAdd(5, 16, 16);
    PowAdd(5, 32, 32);
    NotMore(5, 32, Pow(5, 32));
  }

  /** Is `vm * 10^ve` a multiple of `mm * 10^me`?  For every number but zero the
      answer is exact.  Zero counts as having 64 twos and 64 fives, so it passes
      unless the multiplier needs more. */
  method DecimalsDivide(vm: int, ve: int, mm: nat, me: int) returns (ok: bool)
    requires -INT64 <= vm < INT64
    ensures mm == 0 ==> !ok
    ensures mm > 0 && vm != 0 ==> ok == IsMultiple(vm, ve, mm, me)
    ensures mm > 0 && vm == 0 ==>
              (ok <==> ve - me + COUNT_LIMIT >= CountOf(2, mm) && ve - me + COUNT_LIMIT >= CountOf(5, mm))
  {
    if mm == 0 {
      return false;
    }
    var b, odd := StripFactor(mm, 2);
    var c, m := StripFactor(odd, 5);
    var k := ve - me;
    var mag := if vm < 0 then -vm else vm;
    var u2, half := CountFactor(mag, 2, COUNT_LIMIT);
    var u5, fifth := CountFactor(mag, 5, COUNT_LIMIT);
    ok := k + u2 >= b && k + u5 >= c && mag % m == 0;
    assert mm == Made(b, c, m);
    CountsOfMade(b, c, m);
    if vm != 0 {
      TwoTo64();
      FivesFit();
      var w := FormFound(mag, u2, half, u5, fifth);
      Decide(mag, u2, u5, w, mm, b, c, m, ve, me);
      SignIsDropped(mag, ve, mm, me);
    }
  }

  /** A number as the walk sees it: an integer, the exact decimal form of a
      double, or a double without one - too fine, infinite or not a number. */
  datatype Number = Whole(value: int) | Decimal(mant: int, exp: int) | Inexact

  function Mant(n: Number): int
    requires !n.Inexact?
  {
    if n.Whole? then n.value else n.mant
  }

  function Exp(n: Number): int
    requires !n.Inexact?
  {
    if n.Whole? then 0 else n.exp
  }

  /** The whole decision.  Only for zero can the answer be wrong, and only if one
      of the two numbers is a double. */
  method MultOk(v: Number, m: Number) returns (ok: bool)
    requires (!v.Inexact? ==> -INT64 <= Mant(v) < INT64) && (!m.Inexact? ==> Mant(m) >= 0)
    ensures v.Inexact? || m.Inexact? || Mant(m) == 0 ==> !ok
    ensures !v.Inexact? && !m.Inexact? && Mant(m) > 0 && (Mant(v) != 0 || (v.Whole? && m.Whole?)) ==>
              ok == IsMultiple(Mant(v), Exp(v), Mant(m), Exp(m))
    ensures !v.Inexact? && !m.Inexact? && Mant(m) > 0 && Mant(v) == 0 && !(v.Whole? && m.Whole?) ==>
              var k := Exp(v) - Exp(m) + COUNT_LIMIT;
              ok <==> k >= CountOf(2, Mant(m)) && k >= CountOf(5, Mant(m))
  {
    if v.Whole? && m.Whole? {
      return m.value != 0 && v.value % m.value == 0;
    }
    if v.Inexact? || m.Inexact? {
      return false;
    }
    ok := DecimalsDivide(Mant(v), Exp(v), Mant(m), Exp(m));
  }

  /** Zero is a multiple of everything, but not of 1e70 by this decision. */
  method ZeroIsRefused() returns (ok: bool)
    ensures !ok && IsMultiple(0, 0, 1, 70)
  {
    ok := MultOk(Whole(0), Decimal(1, 70));
    ZeroIsMultiple(0, 1, 70);
  }

  /** Exactly when the decision is right about zero. */
  method ZeroIsRightIff(v: Number, m: Number) returns (ok: bool)
    requires !v.Inexact? && !m.Inexact? && Mant(v) == 0 && Mant(m) > 0
    ensures ok == IsMultiple(0, Exp(v), Mant(m), Exp(m)) <==>
              || (v.Whole? && m.Whole?)
              || (&& Exp(m) - Exp(v) <= COUNT_LIMIT - CountOf(2, Mant(m))
                  && Exp(m) - Exp(v) <= COUNT_LIMIT - CountOf(5, Mant(m)))
  {
    ok := MultOk(v, m);
    ZeroIsMultiple(Exp(v), Mant(m), Exp(m));
  }
}
