/** Counting fives with the inverse of five modulo 2^64. */
module Pow5 {
  import opened Arithmetic
  import opened Divisibility

  const U: nat := 0x1_0000_0000_0000_0000
  const INVERSE_OF_5: nat := 14757395258967641293
  const FIFTH_OF_U: nat := 3689348814741910323

  /** Multiplying by the inverse divides multiples of five, and throws everything
      else beyond a fifth of the range. */
  lemma {:induction false} InverseDivides(v: nat)
    requires v < U
    ensures var w := (v * INVERSE_OF_5) % U;
            (w <= FIFTH_OF_U <==> v % 5 == 0) && (v % 5 == 0 ==> w == v / 5)
  {
    var w, t := (v * INVERSE_OF_5) % U, (v * INVERSE_OF_5) / U;
    assert v * INVERSE_OF_5 == U * t + w;
    assert 5 * INVERSE_OF_5 == 4 * U + 1;
    // five times the product is v again, up to whole turns
    assert 5 * w == v + U * (4 * v - 5 * t);
    if w <= FIFTH_OF_U {
      assert 0 <= 5 * w < U;
      var k := 4 * v - 5 * t;
      AtLeastOnce(k, U);
      assert 5 * w == v;
    }
    if v % 5 == 0 {
      var u := v / 5;
      assert u * (4 * U + 1) == U * (4 * u) + u;
      assert v * INVERSE_OF_5 == U * (4 * u) + u;
      DivMod(v * INVERSE_OF_5, U, 4 * u, u);
    }
  }

  /** The number of fives in `value`: 5^p divides it exactly for the `p` up to the
      count. */
  method Pow5Factor(value: nat) returns (count: nat)
    requires 0 < value < U
    ensures forall p: nat :: value % Pow(5, p) == 0 <==> p <= count
  {
    var v := value;
    count := 0;
    assert Pow(5, 0) * v == value;
    while true
      invariant 0 < v < U && value == Pow(5, count) * v
      decreases v
    {
      InverseDivides(v);
      var w := (v * INVERSE_OF_5) % U;
      if w > FIFTH_OF_U {
        break;
      }
      PowStep(5, count + 1, w);
      Exchange(Pow(5, count), 5, w);
      assert v == 5 * w;
      hide Pow;
      v := w;
      count := count + 1;
    }
    forall p: nat ensures value % Pow(5, p) == 0 <==> p <= count {
      Strip(5, p, count, 1, v);
      assert v % 1 == 0 && Pow(5, p) * 1 == Pow(5, p);
    }
  }

  method MultipleOfPowerOf5(value: nat, p: nat) returns (r: bool)
    requires 0 < value < U
    ensures r == (value % Pow(5, p) == 0)
  {
    var count := Pow5Factor(value);
    r := count >= p;
  }
}
