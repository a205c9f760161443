/** The last step of printing a float: decimal digits are taken off as long as
    the interval around the value still holds a shorter number. */
module DigitRemoval {
  import opened Arithmetic

  const W: nat := 0x1_0000_0000

  /** A remainder computed in 32-bit words. */
  function ModByWord(v: nat, n: nat): (r: nat)
    requires n == 10 || n == 100
    ensures r == v % n
  {
    var q, r := v / n, v % n;
    assert v == n * q + r;
    var t, s := q / W, q % W;
    assert q == W * t + s;
    assert v == n * (W * t + s) + r == W * (n * t) + (n * s + r);
    assert (v % W - n * (q % W)) % W == r by {
      var a, b := (n * s + r) / W, (n * s + r) % W;
      assert v == W * (n * t + a) + b;
      DivMod(v, W, n * t + a, b);
      assert b - n * s == r - W * a;
      DivMod(b - n * s, W, -a, r);
    }
    (v % W - n * (q % W)) % W
  }

  /** A number without its last `r` digits. */
  function Cut(v: nat, r: nat): nat {
    v / Pow(10, r)
  }

  lemma {:induction false} CutMore(v: nat, r: nat, n: nat)
    ensures Cut(v, r + n) == Cut(Cut(v, r), n)
  {
    PowAdd(10, r, n);
    DivDiv(v, Pow(10, r), Pow(10, n));
  }

  /** Cutting one or two digits. */
  lemma {:induction false} CutSmall(v: nat)
    ensures Cut(v, 0) == v && Cut(v, 1) == v / 10 && Cut(v, 2) == v / 100
  {
    assert Pow(10, 1) == 10 && Pow(10, 2) == 100;
  }

  lemma {:induction false} CutKeepsOrder(v: nat, w: nat, r: nat)
    requires v <= w
    ensures Cut(v, r) <= Cut(w, r)
  {
    DivKeepsOrder(v, w, Pow(10, r));
  }

  lemma {:induction false} DivKeepsOrder(v: nat, w: nat, d: nat)
    requires v <= w && d > 0
    ensures v / d <= w / d
  {
    var k := v / d - w / d;
    assert v == d * (v / d) + v % d && w == d * (w / d) + w % d;
    assert k * d == v - v % d - w + w % d;
    AtLeastOnce(k, d);
  }

  /** The interval still holds a number of `r` fewer digits. */
  predicate StillApart(vp: nat, vm: nat, r: nat) {
    Cut(vp, r) > Cut(vm, r)
  }

  /** Once together, the bounds stay together. */
  lemma {:induction false} TogetherStays(vp: nat, vm: nat, r: nat, r': nat)
    requires r <= r' && !StillApart(vp, vm, r)
    ensures !StillApart(vp, vm, r')
  {
    CutMore(vp, r, r' - r);
    CutMore(vm, r, r' - r);
    CutKeepsOrder(Cut(vp, r), Cut(vm, r), r' - r);
  }

  /** The most digits that can go. */
  predicate IsGreatest(vp: nat, vm: nat, r: nat) {
    StillApart(vp, vm, r) && !StillApart(vp, vm, r + 1)
  }

  /** The last of `r` digits cut off. */
  function LastCut(v: nat, r: nat): (d: nat)
    ensures d < 10
  {
    if r == 0 then 0 else Cut(v, r - 1) % 10
  }

  /** The last digit cut off says whether at least half was. */
  lemma {:induction false} LastCutIsHalf(v: nat, r: nat)
    requires r > 0
    ensures v == Pow(10, r) * Cut(v, r) + Pow(10, r - 1) * LastCut(v, r) + v % Pow(10, r - 1)
    ensures LastCut(v, r) >= 5 <==> 2 * (v % Pow(10, r)) >= Pow(10, r)
    ensures LastCut(v, r) == 5 && v % Pow(10, r - 1) == 0 <==> 2 * (v % Pow(10, r)) == Pow(10, r)
  {
    var d := Pow(10, r - 1);
    CutMore(v, r - 1, 1);
    CutSmall(v / d);
    assert Pow(10, r) == 10 * d;
    hide Pow;
    HalfOfDigits(v, d);
  }

  lemma {:induction false} HalfOfDigits(v: nat, d: nat)
    requires d > 0
    ensures var a, b, t := (v / d) / 10, (v / d) % 10, v % d;
            && v == (10 * d) * a + d * b + t && v % (10 * d) == d * b + t
            && (b >= 5 <==> 2 * (v % (10 * d)) >= 10 * d)
            && (b == 5 && t == 0 <==> 2 * (v % (10 * d)) == 10 * d)
  {
    var q, t := v / d, v % d;
    var a, b := q / 10, q % 10;
    assert v == d * q + t && q == 10 * a + b;
    TenTimes(d, a, b);
    HalfOf(d, b, t);
    DivMod(v, 10 * d, a, d * b + t);
  }

  lemma {:induction false} TenTimes(d: nat, a: nat, b: nat)
    ensures d * (10 * a + b) == (10 * d) * a + d * b
  {
  }

  lemma {:induction false} HalfOf(d: nat, b: nat, t: nat)
    requires b < 10 && t < d
    ensures d * b + t < 10 * d
    ensures b >= 5 <==> 2 * (d * b + t) >= 10 * d
    ensures b == 5 && t == 0 <==> 2 * (d * b + t) == 10 * d
  {
    assert b == 0 || b == 1 || b == 2 || b == 3 || b == 4 || b == 5 || b == 6 || b == 7 || b == 8 || b == 9;
  }

  // ------------------------------------------------------------ common case

  /** Digit removal when neither bound is exact: two digits at once if possible,
      then one by one.  It removes the most digits that can go; `roundUp` says
      whether at least half was cut off `vr`. */
  method CommonCase(vr0: nat, vp0: nat, vm0: nat) returns (vr: nat, vp: nat, vm: nat, removed: nat, roundUp: bool,
                    output: nat)
    requires vm0 < vp0
    ensures IsGreatest(vp0, vm0, removed)
    ensures vr == Cut(vr0, removed) && vp == Cut(vp0, removed) && vm == Cut(vm0, removed)
    ensures roundUp <==> removed > 0 && LastCut(vr0, removed) >= 5
    ensures output == vr + (if vr == vm || roundUp then 1 else 0)
  {
    vr, vp, vm, removed, roundUp := vr0, vp0, vm0, 0, false;
    CutSmall(vr0);
    CutSmall(vp0);
    CutSmall(vm0);
    if vp / 100 > vm / 100 {
      roundUp := ModByWord(vr, 100) >= 50;
      TwoDigits(vr0);
      vr, vp, vm := vr / 100, vp / 100, vm / 100;
      removed := removed + 2;
    }
    while vp / 10 > vm / 10
      invariant vr == Cut(vr0, removed) && vp == Cut(vp0, removed) && vm == Cut(vm0, removed)
      invariant vm < vp && (roundUp <==> removed > 0 && LastCut(vr0, removed) >= 5)
      decreases vp
    {
      CutOne(vr0, removed);
      CutOne(vp0, removed);
      CutOne(vm0, removed);
      roundUp := ModByWord(vr, 10) >= 5;
      vr, vp, vm := vr / 10, vp / 10, vm / 10;
      removed := removed + 1;
    }
    CutOne(vp0, removed);
    CutOne(vm0, removed);
    output := vr + if vr == vm || roundUp then 1 else 0;
  }

  lemma {:induction false} CutOne(v: nat, r: nat)
    ensures Cut(v, r + 1) == Cut(v, r) / 10 && LastCut(v, r + 1) == Cut(v, r) % 10
  {
    CutMore(v, r, 1);
    CutSmall(Cut(v, r));
  }

  /** Half of a hundred is gone exactly when the upper of two digits says so. */
  lemma {:induction false} TwoDigits(v: nat)
    ensures v % 100 >= 50 <==> LastCut(v, 2) >= 5
  {
    CutSmall(v);
    hide Cut;
    LastTwo(v);
  }

  lemma {:induction false} LastTwo(v: nat)
    ensures v % 100 == 10 * ((v / 10) % 10) + v % 10
  {
  }

  /** What comes out is rounded to the nearest, or the first number above the
      lower bound; and if the value is at most one nearer to the lower bound than
      to the upper, it lies within the bounds. */
  lemma {:induction false} CommonCaseIsRight(vr0: nat, vp0: nat, vm0: nat, r: nat, output: nat)
    requires vm0 <= vr0 && IsGreatest(vp0, vm0, r)
    requires output == Cut(vr0, r) + (if Cut(vr0, r) == Cut(vm0, r) || (r > 0 && LastCut(vr0, r) >= 5) then 1 else 0)
    ensures Cut(vr0, r) != Cut(vm0, r) ==> output == (2 * vr0 + Pow(10, r)) / (2 * Pow(10, r))
    ensures Cut(vm0, r) < output
    ensures vr0 - vm0 <= vp0 - vr0 + 1 ==> output <= Cut(vp0, r)
  {
    var d := Pow(10, r);
    var vr, vm := Cut(vr0, r), Cut(vm0, r);
    CutKeepsOrder(vm0, vr0, r);
    if r > 0 {
      LastCutIsHalf(vr0, r);
    }
    var up := r > 0 && LastCut(vr0, r) >= 5;
    assert up <==> r > 0 && 2 * (vr0 % d) >= d;
    hide Pow, LastCut;
    if vr != vm {
      RoundsHalfUp(vr0, d, r == 0);
    }
    if vr0 - vm0 <= vp0 - vr0 + 1 {
      if vr != vm && up {
        UpStaysBelow(vr0, vp0, vm0, d);
      } else if vr != vm {
        AtMostMiddle(vr0, vp0, vm0, r);
      }
    }
  }

  /** Adding one for at least half is rounding to the nearest. */
  lemma {:induction false} RoundsHalfUp(v: nat, d: nat, whole: bool)
    requires d > 0 && (whole ==> d == 1)
    ensures (2 * v + d) / (2 * d) == v / d + (if !whole && 2 * (v % d) >= d then 1 else 0)
  {
    var q, rest := v / d, v % d;
    assert v == d * q + rest;
    if 2 * rest >= d && !whole {
      assert 2 * v + d == (2 * d) * (q + 1) + (2 * rest - d);
      DivMod(2 * v + d, 2 * d, q + 1, 2 * rest - d);
    } else {
      assert 2 * v + d == (2 * d) * q + (2 * rest + d);
      DivMod(2 * v + d, 2 * d, q, 2 * rest + d);
    }
  }

  /** Rounding up stays below an upper bound as far away as the lower. */
  lemma {:induction false} UpStaysBelow(vr0: nat, vp0: nat, vm0: nat, d: nat)
    requires d > 0 && vm0 / d < vr0 / d && 2 * (vr0 % d) >= d && vr0 - vm0 <= vp0 - vr0 + 1
    ensures vr0 / d + 1 <= vp0 / d
  {
    var q := vr0 / d;
    assert vr0 == d * q + vr0 % d && vm0 == d * (vm0 / d) + vm0 % d;
    Below(d, vm0 / d, q);
    assert vm0 < d * q;
    assert d * (q + 1) == d * q + d;
    assert vp0 >= d * (q + 1);
    DivMod(d * (q + 1), d, q + 1, 0);
    DivKeepsOrder(d * (q + 1), vp0, d);
  }

  /** The value's own digits stay within the bounds. */
  lemma {:induction false} AtMostMiddle(vr0: nat, vp0: nat, vm0: nat, r: nat)
    requires vm0 <= vr0 && vr0 - vm0 <= vp0 - vr0 + 1 && StillApart(vp0, vm0, r)
    ensures Cut(vr0, r) <= Cut(vp0, r)
  {
    if vr0 <= vp0 {
      CutKeepsOrder(vr0, vp0, r);
    } else {
      CutKeepsOrder(vp0, vm0, r);
    }
  }

  // ----------------------------------------------------------- general case

  /** The flags and the digit kept while digits go: whether all that was cut off
      the lower bound, and all but the last cut off the value, were zeros. */
  predicate Flags(vr0: nat, vm0: nat, vrZeros0: bool, vmZeros0: bool, r: nat, vrZeros: bool, vmZeros: bool, last: nat) {
    && last == LastCut(vr0, r)
    && vmZeros == (vmZeros0 && vm0 % Pow(10, r) == 0)
    && vrZeros == (vrZeros0 && (r > 0 ==> vr0 % Pow(10, r - 1) == 0))
  }

  lemma {:induction false} ZerosMore(v: nat, r: nat)
    ensures v % Pow(10, r + 1) == 0 <==> v % Pow(10, r) == 0 && Cut(v, r) % 10 == 0
  {
    var d := Pow(10, r);
    var q, t := v / d, v % d;
    var a, b := q / 10, q % 10;
    assert Pow(10, r + 1) == 10 * d;
    hide Pow;
    assert v == d * q + t;
    TenTimes(d, a, b);
    HalfOf(d, b, t);
    DivMod(v, 10 * d, a, d * b + t);
    if b > 0 {
      AtLeastOnce(b, d);
    }
  }

  lemma {:induction false} FlagsStep(vr0: nat, vm0: nat, vrZeros0: bool, vmZeros0: bool, r: nat, vrZeros: bool,
                                     vmZeros: bool, last: nat)
    requires Flags(vr0, vm0, vrZeros0, vmZeros0, r, vrZeros, vmZeros, last)
    ensures Flags(vr0, vm0, vrZeros0, vmZeros0, r + 1, vrZeros && last == 0, vmZeros && Cut(vm0, r) % 10 == 0,
                  Cut(vr0, r) % 10)
  {
    ZerosMore(vm0, r);
    CutOne(vr0, r);
    if r > 0 {
      ZerosMore(vr0, r - 1);
    } else {
      assert vr0 % Pow(10, 0) == 0;
    }
  }

  /** Digit removal when a bound may be exact.  The digits that the common case
      would remove go; then, if all that was cut off the lower bound were zeros,
      its further zeros go too.  An exact tie rounds to even. */
  method GeneralCase(vr0: nat, vp0: nat, vm0: nat, vrZeros0: bool, vmZeros0: bool, acceptBounds: bool)
      returns (vr: nat, vp: nat, vm: nat, removed: nat, output: nat, ghost first: nat)
    requires vm0 < vp0 && vm0 > 0
    ensures IsGreatest(vp0, vm0, first) && first <= removed
    ensures vr == Cut(vr0, removed) && vp == Cut(vp0, removed) && vm == Cut(vm0, removed)
    ensures vmZeros0 && vm0 % Pow(10, first) == 0 ==> vm0 % Pow(10, removed) == 0 && vm % 10 != 0
    ensures !(vmZeros0 && vm0 % Pow(10, first) == 0) ==> removed == first
    ensures var exact := vmZeros0 && vm0 % Pow(10, removed) == 0;
            var tie := vrZeros0 && removed > 0 && 2 * (vr0 % Pow(10, removed)) == Pow(10, removed);
            var up := removed > 0 && 2 * (vr0 % Pow(10, removed)) >= Pow(10, removed) && !(tie && vr % 2 == 0);
            output == vr + (if (vr == vm && (!acceptBounds || !exact)) || up then 1 else 0)
  {
    vr, vp, vm, removed := vr0, vp0, vm0, 0;
    var vrZeros, vmZeros, last := vrZeros0, vmZeros0, 0;
    CutSmall(vr0);
    CutSmall(vp0);
    CutSmall(vm0);
    while vp / 10 > vm / 10
      invariant vr == Cut(vr0, removed) && vp == Cut(vp0, removed) && vm == Cut(vm0, removed) && vm < vp
      invariant Flags(vr0, vm0, vrZeros0, vmZeros0, removed, vrZeros, vmZeros, last)
      decreases vp
    {
      CutOne(vr0, removed);
      CutOne(vp0, removed);
      CutOne(vm0, removed);
      FlagsStep(vr0, vm0, vrZeros0, vmZeros0, removed, vrZeros, vmZeros, last);
      hide Flags;
      vmZeros := vmZeros && ModByWord(vm, 10) == 0;
      vrZeros := vrZeros && last == 0;
      last := ModByWord(vr, 10);
      vr, vp, vm := vr / 10, vp / 10, vm / 10;
      removed := removed + 1;
    }
    CutOne(vp0, removed);
    CutOne(vm0, removed);
    first := removed;
    if vmZeros {
      ZerosLeave(vm0, removed);
      while ModByWord(vm, 10) == 0
        invariant vr == Cut(vr0, removed) && vp == Cut(vp0, removed) && vm == Cut(vm0, removed) && vm > 0
        invariant Flags(vr0, vm0, vrZeros0, vmZeros0, removed, vrZeros, vmZeros, last) && vmZeros && first <= removed
        decreases vm
      {
        CutOne(vr0, removed);
        CutOne(vp0, removed);
        CutOne(vm0, removed);
        FlagsStep(vr0, vm0, vrZeros0, vmZeros0, removed, vrZeros, vmZeros, last);
        hide Flags;
        vrZeros := vrZeros && last == 0;
        last := ModByWord(vr, 10);
        vr, vp, vm := vr / 10, vp / 10, vm / 10;
        removed := removed + 1;
      }
    }
    if removed > 0 {
      LastCutIsHalf(vr0, removed);
    }
    if vrZeros && last == 5 && vr % 2 == 0 {
      last := 4;
    }
    output := vr + if (vr == vm && (!acceptBounds || !vmZeros)) || last >= 5 then 1 else 0;
  }

  /** What is left of a number after zeros were cut off is not zero. */
  lemma {:induction false} ZerosLeave(v: nat, r: nat)
    requires v > 0 && v % Pow(10, r) == 0
    ensures Cut(v, r) > 0
  {
    assert v == Pow(10, r) * (v / Pow(10, r));
  }
}
