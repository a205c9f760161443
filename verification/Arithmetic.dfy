/** Small facts about division and remainders. */
module Arithmetic {

  lemma {:induction false} AtLeastOnce(x: int, d: nat)
    ensures x >= 1 ==> x * d >= d
    ensures x <= -1 ==> x * d <= -(d as int)
  {
  }

  /** A quotient and remainder found by hand are those of the operators. */
  lemma {:induction false} DivMod(y: int, n: nat, q: int, r: int)
    requires n > 0 && 0 <= r < n && y == n * q + r
    ensures y / n == q && y % n == r
  {
    var q', r' := y / n, y % n;
    assert y == n * q' + r';
    assert (q - q') * n == r' - r;
    AtLeastOnce(q - q', n);
  }

  lemma {:induction false} Multiple(d: nat, q: int)
    requires d > 0
    ensures (d * q) % d == 0
  {
    DivMod(d * q, d, q, 0);
  }

  lemma {:induction false} CancelMul(y: nat, a: nat, b: nat)
    requires y > 0 && y * a == y * b
    ensures a == b
  {
    assert (a - b) * y == 0;
    AtLeastOnce(a - b, y);
  }

  function Pow(b: nat, e: nat): (p: nat)
    ensures b > 0 ==> p > 0
  {
    if e == 0 then 1 else b * Pow(b, e - 1)
  }

  lemma {:induction false} PowStep(f: nat, e: nat, n: nat)
    requires e > 0
    ensures Pow(f, e) * n == f * (Pow(f, e - 1) * n)
  {
  }

  lemma {:induction false} Positive(x: nat, y: nat)
    requires x > 0 && y > 0
    ensures x * y > 0
  {
  }

  lemma {:induction false} PowAdd(b: nat, m: nat, n: nat)
    ensures Pow(b, m + n) == Pow(b, m) * Pow(b, n)
    decreases m
  {
    if m > 0 {
      PowAdd(b, m - 1, n);
      assert b * (Pow(b, m - 1) * Pow(b, n)) == b * Pow(b, m - 1) * Pow(b, n);
    }
  }

  lemma {:induction false} Exchange(x: nat, f: nat, y: nat)
    ensures x * (f * y) == f * (x * y)
  {
  }

  lemma {:induction false} Regroup3(f: nat, d: nat, q: nat)
    ensures (f * d) * q == f * (d * q)
  {
  }

  lemma {:induction false} NotMore(f: nat, count: nat, part: nat)
    requires part > 0
    ensures Pow(f, count) * part >= Pow(f, count)
  {
    var x := Pow(f, count);
    assert x * part >= x;
  }

  lemma {:induction false} Recompose(x: nat, a: nat)
    requires a > 0
    ensures x == a * (x / a) + x % a && x % a < a
  {
  }

  /** Dividing twice is dividing by the product. */
  lemma {:induction false} DivDiv(x: nat, a: nat, b: nat)
    requires a > 0 && b > 0
    ensures a * b > 0 && (x / a) / b == x / (a * b)
  {
    Recompose(x, a);
    Recompose(x / a, b);
    DivDivAt(x, a, b, x / a, x % a, x / a / b, x / a % b);
  }

  lemma {:induction false} DivDivAt(x: nat, a: nat, b: nat, q: nat, r: nat, q': nat, r': nat)
    requires x == a * q + r && r < a && q == b * q' + r' && r' < b
    ensures a * b > 0 && x / (a * b) == q'
  {
    Positive(a, b);
    Nested(a, b, q', r', r);
    DivMod(x, a * b, q', a * r' + r);
  }

  lemma {:induction false} Nested(a: nat, b: nat, q: nat, s: nat, r: nat)
    requires r < a && s < b
    ensures a * (b * q + s) + r == (a * b) * q + (a * s + r)
    ensures a * s + r < a * b
  {
    assert a * (b * q) == (a * b) * q;
    assert a * (b * q + s) == a * (b * q) + a * s;
    Below(a, s, b);
  }

  lemma {:induction false} Below(a: nat, r: nat, b: nat)
    requires r < b
    ensures a * r + a <= a * b
  {
    var k := b - 1 - r;
    assert a * b == a * (r + 1 + k) == a * r + a + a * k;
  }

  lemma {:induction false} TwoTo64()
    ensures Pow(2, 64) == 0x1_0000_0000_0000_0000
  {
    assert Pow(2, 8) == 256;
    PowAdd(2, 8, 8);
    PowAdd(2, 16, 16);
    PowAdd(2, 32, 32);
  }
}
