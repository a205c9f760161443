/** Divisibility by twos and fives: common factors cancel, missing ones do not
    matter, and powers compare by their exponents. */
module Divisibility {
  import opened Arithmetic

  /** A common factor cancels. */
  lemma {:induction false} Cancel(f: nat, d: nat, n: nat)
    requires f > 0 && d > 0
    ensures f * d > 0 && ((f * n) % (f * d) == 0 <==> n % d == 0)
  {
    Positive(f, d);
    if (f * n) % (f * d) == 0 {
      var q := (f * n) / (f * d);
      Recompose(f * n, f * d);
      Regroup3(f, d, q);
      CancelMul(f, n, d * q);
      Multiple(d, q);
    }
    if n % d == 0 {
      var q := n / d;
      Recompose(n, d);
      Regroup3(f, d, q);
      Multiple(f * d, q);
    }
  }

  /** A prime factor that the divisor lacks does not matter. */
  lemma {:induction false} Skip(f: nat, d: nat, n: nat)
    requires (f == 2 || f == 5) && d % f != 0
    ensures (f * n) % d == 0 <==> n % d == 0
  {
    if (f * n) % d == 0 {
      var q := (f * n) / d;
      assert f * n == d * q;
      NoSharedFactor(f, d, q, n);
      var r := q / f;
      assert q == f * r;
      assert d * q == f * (d * r);
      assert n == d * r;
      Multiple(d, r);
    }
    if n % d == 0 {
      var q := n / d;
      assert f * n == d * (f * q);
      Multiple(d, f * q);
    }
  }

  lemma {:induction false} NoSharedFactor(f: nat, d: nat, q: nat, n: nat)
    requires (f == 2 || f == 5) && d % f != 0 && d * q == f * n
    ensures q % f == 0
  {
    Recompose(d, f);
    if f == 2 {
      NoSharedTwo(d / 2, q, n);
    } else {
      NoSharedFive(d / 5, d % 5, q, n);
    }
  }

  lemma {:induction false} NoSharedTwo(t: nat, q: nat, n: nat)
    requires (2 * t + 1) * q == 2 * n
    ensures q % 2 == 0
  {
    var k := t * q;
    assert (2 * t + 1) * q == 2 * k + q;
  }

  lemma {:induction false} NoSharedFive(t: nat, r: nat, q: nat, n: nat)
    requires 1 <= r <= 4 && (5 * t + r) * q == 5 * n
    ensures q % 5 == 0
  {
    var k := t * q;
    assert (5 * t + r) * q == 5 * k + r * q;
    FiveDivides(r, q, n - k);
  }

  lemma {:induction false} FiveDivides(r: nat, q: nat, m: int)
    requires 1 <= r <= 4 && r * q == 5 * m
    ensures q % 5 == 0
  {
    var u, s := q / 5, q % 5;
    Recompose(q, 5);
    assert r * (5 * u + s) == 5 * (r * u) + r * s;
    SmallFactors(r, s, m - r * u);
  }

  lemma {:induction false} SmallFactors(r: nat, s: nat, k: int)
    requires 1 <= r <= 4 && s <= 4 && r * s == 5 * k
    ensures s == 0
  {
    assert r == 1 || r == 2 || r == 3 || r == 4;
    assert s == 0 || s == 1 || s == 2 || s == 3 || s == 4;
  }

  /** A factor of the divisor must be one of the number. */
  lemma {:induction false} Missing(f: nat, d: nat, n: nat)
    requires f > 0 && d > 0 && n % f != 0
    ensures f * d > 0 && n % (f * d) != 0
  {
    assert f * d > 0;
    if n % (f * d) == 0 {
      var q := n / (f * d);
      assert n == f * d * q == f * (d * q);
      Multiple(f, d * q);
    }
  }

  /** `f^p * n` is a multiple of `f^a * d`. */
  predicate PowDivides(f: nat, a: nat, d: nat, p: nat, n: nat)
    requires f > 0 && d > 0
  {
    Positive(Pow(f, a), d);
    (Pow(f, p) * n) % (Pow(f, a) * d) == 0
  }

  lemma {:induction false} PowDividesStep(f: nat, a: nat, d: nat, p: nat, n: nat)
    requires (f == 2 || f == 5) && d % f != 0 && n % f != 0
    ensures a > 0 && p > 0 ==> (PowDivides(f, a, d, p, n) <==> PowDivides(f, a - 1, d, p - 1, n))
    ensures a == 0 && p > 0 ==> (PowDivides(f, 0, d, p, n) <==> PowDivides(f, 0, d, p - 1, n))
    ensures a > 0 && p == 0 ==> !PowDivides(f, a, d, 0, n)
  {
    if a > 0 {
      PowStep(f, a, d);
      Positive(Pow(f, a - 1), d);
      if p > 0 {
        PowStep(f, p, n);
        Cancel(f, Pow(f, a - 1) * d, Pow(f, p - 1) * n);
      } else {
        Missing(f, Pow(f, a - 1) * d, n);
      }
    } else if p > 0 {
      PowStep(f, p, n);
      Skip(f, d, Pow(f, p - 1) * n);
    }
  }

  /** Powers of one prime factor compare by their exponents. */
  lemma {:induction false} Strip(f: nat, a: nat, p: nat, d: nat, n: nat)
    requires (f == 2 || f == 5) && d % f != 0 && n % f != 0
    ensures PowDivides(f, a, d, p, n) <==> a <= p && n % d == 0
    decreases a + p
  {
    PowDividesStep(f, a, d, p, n);
    hide PowDivides;
    if a > 0 && p > 0 {
      Strip(f, a - 1, p - 1, d, n);
    } else if p > 0 {
      Strip(f, 0, p - 1, d, n);
    } else if a == 0 {
      assert PowDivides(f, 0, d, 0, n) <==> n % d == 0 by {
        Bare(f, d, n);
      }
    }
  }

  lemma {:induction false} Bare(f: nat, d: nat, n: nat)
    requires f > 0 && d > 0
    ensures PowDivides(f, 0, d, 0, n) <==> n % d == 0
  {
    assert 1 * n == n && 1 * d == d;
  }
}
