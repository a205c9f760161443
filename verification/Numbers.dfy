/** Integers: how they are read, by a short path for few digits and a checked one
    for the rest, and how they are written. */
module Numbers {
  import opened Document
  import opened Utf8
  import opened Arithmetic

  const UNDERSCORE: Byte := 95
  const MAX_DIGITS: nat := 511
  const INT64: int := 0x8000_0000_0000_0000
  const UINT64: int := 0x1_0000_0000_0000_0000

  predicate IsDigit(c: Byte, radix: nat) {
    if radix == 16 then IsDec(c) || 65 <= c <= 70 || 97 <= c <= 102
    else if radix == 8 then 48 <= c <= 55
    else if radix == 2 then c == 48 || c == 49
    else IsDec(c)
  }

  function DigitValue(c: Byte): (v: nat)
    ensures v < 16
  {
    if c <= 57 then if c >= 48 then c - 48 else 0 else (c + (if c < 96 then 32 else 0) - 87) % 16
  }

  /** The number a row of digits stands for. */
  function Value(ds: Bytes, radix: nat): nat
    decreases |ds|
  {
    if ds == [] then 0 else Value(ds[..|ds| - 1], radix) * radix + DigitValue(ds[|ds| - 1])
  }

  // -------------------------------------------------------------- the grammar

  /** The length of the digits and underscores that `t` starts with. */
  function SpanOf(t: Bytes, radix: nat): (n: nat)
    ensures n <= |t| && (forall k :: 0 <= k < n ==> IsDigit(t[k], radix) || t[k] == UNDERSCORE)
    ensures n < |t| ==> !IsDigit(t[n], radix) && t[n] != UNDERSCORE
  {
    if t == [] || !(IsDigit(t[0], radix) || t[0] == UNDERSCORE) then 0 else 1 + SpanOf(t[1..], radix)
  }

  /** Every underscore stands between two digits. */
  predicate GoodRun(run: Bytes) {
    run != [] && forall k :: 0 <= k < |run| && run[k] == UNDERSCORE ==>
      0 < k < |run| - 1 && run[k - 1] != UNDERSCORE && run[k + 1] != UNDERSCORE
  }

  function Clean(run: Bytes): (ds: Bytes)
    ensures |ds| <= |run|
    decreases |run|
  {
    if run == [] then []
    else
      var before := Clean(run[..|run| - 1]);
      if run[|run| - 1] == UNDERSCORE then before else before + [run[|run| - 1]]
  }

  /** The digits of a run and its length. */
  function RunAt(t: Bytes, radix: nat): (r: Maybe<(Bytes, nat)>)
    ensures r.Just? ==> r.value.1 == SpanOf(t, radix)
  {
    var run := t[..SpanOf(t, radix)];
    if GoodRun(run) && |Clean(run)| <= MAX_DIGITS then Just((Clean(run), |run|)) else Nothing
  }

  datatype Number = IntNumber(value: int, n: nat) | FloatNumber | NoNumber

  /** A fraction or an exponent follows. */
  predicate GoesOnAsFloat(t: Bytes, n: nat)
    requires n <= |t|
  {
    n < |t| && (t[n] == 46 || t[n] == 101 || t[n] == 69)
  }

  function DecimalAt(t: Bytes, neg: bool): Number {
    var run := RunAt(t, 10);
    if run.Nothing? then NoNumber
    else
      var ds, n := run.value.0, run.value.1;
      if |ds| > 1 && ds[0] == 48 then NoNumber
      else if GoesOnAsFloat(t, n) then FloatNumber
      else
        var v: int := Value(ds, 10);
        if neg then if v > INT64 then NoNumber else IntNumber(-v, n)
        else if v >= INT64 then NoNumber else IntNumber(v, n)
  }

  /** Integers with a radix prefix; `t` stands behind it. */
  function RadixAt(t: Bytes, radix: nat): Number {
    var run := RunAt(t, radix);
    if run.Nothing? || Value(run.value.0, radix) >= INT64 then NoNumber
    else IntNumber(Value(run.value.0, radix), run.value.1 + 2)
  }

  function RadixOf(c: Byte): nat {
    if c == 120 then 16 else if c == 111 then 8 else if c == 98 then 2 else 0
  }

  /** An unsigned number, or one whose sign has been read. */
  function NumberAt(t: Bytes, signed: bool, neg: bool): Number {
    if t == [] then NoNumber
    else if t[0] == 105 || t[0] == 110 then
      if |t| >= 3 && (t[..3] == [105, 110, 102] || t[..3] == [110, 97, 110]) then FloatNumber else NoNumber
    else if !IsDec(t[0]) then NoNumber
    else if t[0] == 48 && |t| > 1 && RadixOf(t[1]) > 0 then
      if signed then NoNumber else RadixAt(t[2..], RadixOf(t[1]))
    else DecimalAt(t, neg)
  }

  // ---------------------------------------------------------------- reading

  lemma {:induction false} CleanMore(t: Bytes, i: nat)
    requires i < |t|
    ensures Clean(t[..i + 1]) == if t[i] == UNDERSCORE then Clean(t[..i]) else Clean(t[..i]) + [t[i]]
  {
    assert t[..i + 1][..i] == t[..i];
  }

  lemma {:induction false} NothingClean(t: Bytes)
    ensures Clean(t[..0]) == []
  {
  }

  lemma {:induction false} CleanGrows(t: Bytes, i: nat, n: nat)
    requires i <= n <= |t|
    ensures |Clean(t[..i])| <= |Clean(t[..n])|
    decreases n
  {
    if i < n {
      CleanGrows(t, i, n - 1);
      CleanMore(t, n - 1);
    }
  }

  /** Every underscore so far follows a digit. */
  predicate GoodSoFar(t: Bytes, i: nat)
    requires i <= |t|
  {
    forall k :: 0 <= k < i && t[k] == UNDERSCORE ==> k > 0 && t[k - 1] != UNDERSCORE
  }

  method ScanRun(s: Bytes, p: nat, radix: nat) returns (r: Maybe<(Bytes, nat)>)
    requires p <= |s|
    ensures r == RunAt(s[p..], radix)
  {
    hide Clean, GoodRun, SpanOf;
    ghost var t := s[p..];
    ghost var n := SpanOf(t, radix);
    NothingClean(t);
    var buf: Bytes, prevDigit, i := [], false, 0;
    while p + i < |s| && (IsDigit(s[p + i], radix) || s[p + i] == UNDERSCORE)
      invariant 0 <= i <= n && buf == Clean(t[..i]) && |buf| <= MAX_DIGITS && GoodSoFar(t, i)
      invariant prevDigit == (i > 0 && t[i - 1] != UNDERSCORE)
    {
      CleanMore(t, i);
      if s[p + i] == UNDERSCORE {
        if !prevDigit {
          RunIsBad(t, i, n);
          return Nothing;
        }
        prevDigit := false;
      } else {
        if |buf| == MAX_DIGITS {
          CleanGrows(t, i + 1, n);
          return Nothing;
        }
        buf := buf + [s[p + i]];
        prevDigit := true;
      }
      i := i + 1;
    }
    assert i == n;
    RunIsGood(t, n);
    hide GoodRun, GoodSoFar;
    if i == 0 || !prevDigit {
      return Nothing;
    }
    return Just((buf, i));
  }

  /** A run whose underscores follow digits is good exactly if it ends with one. */
  lemma {:induction false} RunIsGood(t: Bytes, n: nat)
    requires n <= |t| && GoodSoFar(t, n)
    ensures GoodRun(t[..n]) <==> n > 0 && t[n - 1] != UNDERSCORE
  {
    var run := t[..n];
    if n > 0 && t[n - 1] == UNDERSCORE {
      assert run[n - 1] == UNDERSCORE;
    }
    if n > 0 && t[n - 1] != UNDERSCORE {
      forall k | 0 <= k < n && run[k] == UNDERSCORE
        ensures 0 < k < n - 1 && run[k - 1] != UNDERSCORE && run[k + 1] != UNDERSCORE
      {
        assert t[k] == UNDERSCORE;
      }
    }
  }

  /** An underscore behind none or another one spoils the run. */
  lemma {:induction false} RunIsBad(t: Bytes, i: nat, n: nat)
    requires i < n <= |t| && t[i] == UNDERSCORE && (i == 0 || t[i - 1] == UNDERSCORE)
    ensures !GoodRun(t[..n])
  {
    assert t[..n][i] == UNDERSCORE && (i > 0 ==> t[..n][i - 1] == UNDERSCORE);
  }

  lemma {:induction false} ValueMore(ds: Bytes, i: nat, radix: nat)
    requires i < |ds|
    ensures Value(ds[..i + 1], radix) == Value(ds[..i], radix) * radix + DigitValue(ds[i])
  {
    assert ds[..i + 1][..i] == ds[..i];
  }

  lemma {:induction false} ValueGrows(ds: Bytes, i: nat, n: nat, radix: nat)
    requires i <= n <= |ds| && radix >= 1
    ensures Value(ds[..i], radix) <= Value(ds[..n], radix)
    decreases n
  {
    if i < n {
      ValueGrows(ds, i, n - 1, radix);
      ValueMore(ds, n - 1, radix);
      AtLeastItself(Value(ds[..n - 1], radix), radix);
    }
  }

  lemma {:induction false} AtLeastItself(v: nat, radix: nat)
    requires radix >= 1
    ensures v * radix >= v
  {
  }

  lemma {:induction false} OverflowCheck(v: nat, d: nat, radix: nat)
    requires (radix == 2 || radix == 8 || radix == 10 || radix == 16) && d < UINT64
    ensures v > (UINT64 - 1 - d) / radix <==> v * radix + d >= UINT64
  {
    if radix == 2 {
    } else if radix == 8 {
    } else if radix == 10 {
    } else {
    }
  }

  /** The magnitude, unless it does not fit 64 bits; the check never overflows
      itself. */
  method MagFrom(ds: Bytes, radix: nat) returns (mag: Maybe<nat>)
    requires radix == 2 || radix == 8 || radix == 10 || radix == 16
    ensures mag == if Value(ds, radix) < UINT64 then Just(Value(ds, radix)) else Nothing
  {
    var v := 0;
    var i := 0;
    while i < |ds|
      invariant 0 <= i <= |ds| && v == Value(ds[..i], radix) && v < UINT64
    {
      var d := DigitValue(ds[i]);
      ValueMore(ds, i, radix);
      OverflowCheck(v, d, radix);
      hide Value, DigitValue;
      if v > (UINT64 - 1 - d) / radix {
        ValueGrows(ds, i + 1, |ds|, radix);
        assert ds[..|ds|] == ds;
        return Nothing;
      }
      v := v * radix + d;
      i := i + 1;
    }
    assert ds[..i] == ds;
    return Just(v);
  }

  function Wrap(x: nat): (r: nat)
    ensures x < UINT64 ==> r == x
  {
    x % UINT64
  }

  lemma {:induction false} ValueBound(ds: Bytes)
    requires forall k :: 0 <= k < |ds| ==> IsDec(ds[k])
    ensures Value(ds, 10) < Pow(10, |ds|)
    decreases |ds|
  {
    if ds != [] {
      ValueBound(ds[..|ds| - 1]);
      PowStep(10, |ds|, 1);
    }
  }

  lemma {:induction false} EighteenDigitsFit(n: nat)
    requires n <= 18
    ensures Pow(10, n) <= 1_000_000_000_000_000_000
    decreases 18 - n
  {
    if n < 18 {
      EighteenDigitsFit(n + 1);
    } else {
      assert Pow(10, 6) == 1_000_000;
      PowAdd(10, 6, 6);
      PowAdd(10, 12, 6);
    }
  }

  /** Plain digits are their own clean run. */
  lemma {:induction false} PlainIsClean(ds: Bytes)
    requires forall k :: 0 <= k < |ds| ==> ds[k] != UNDERSCORE
    ensures Clean(ds) == ds
    decreases |ds|
  {
    if ds != [] {
      PlainIsClean(ds[..|ds| - 1]);
      assert ds == ds[..|ds| - 1] + [ds[|ds| - 1]];
    }
  }

  lemma {:induction false} SpanIs(t: Bytes, n: nat, radix: nat)
    requires n <= |t| && (forall k :: 0 <= k < n ==> IsDigit(t[k], radix) || t[k] == UNDERSCORE)
    requires n < |t| ==> !IsDigit(t[n], radix) && t[n] != UNDERSCORE
    ensures SpanOf(t, radix) == n
    decreases n
  {
    if n > 0 {
      SpanIs(t[1..], n - 1, radix);
    }
  }

  /** Reads decimal digits, keeping the number in a 64-bit word that wraps. */
  method ReadDigits(s: Bytes, p: nat) returns (mag: nat, n: nat)
    requires p <= |s|
    ensures p + n <= |s| && forall k :: p <= k < p + n ==> IsDec(s[k])
    ensures p + n < |s| ==> !IsDec(s[p + n])
    ensures n <= 18 ==> mag == Value(s[p..p + n], 10) < INT64
    ensures n <= 18 && 0 < n && !(p + n < |s| && s[p + n] == UNDERSCORE) ==> RunAt(s[p..], 10) == Just((s[p..p + n], n))
  {
    mag, n := 0, 0;
    ghost var t := s[p..];
    while p + n < |s| && IsDec(s[p + n])
      invariant p + n <= |s| && forall k :: 0 <= k < n ==> IsDec(t[k])
      invariant n <= 18 ==> mag == Value(t[..n], 10)
    {
      OneMoreDigit(t, n);
      hide Value;
      mag := Wrap(mag * 10 + (s[p + n] - 48));
      n := n + 1;
    }
    DigitsRead(s, p, n);
  }

  lemma {:induction false} OneMoreDigit(t: Bytes, n: nat)
    requires n < |t| && (forall k :: 0 <= k < n ==> IsDec(t[k])) && IsDec(t[n])
    ensures IsDec(t[n]) && DigitValue(t[n]) == t[n] - 48
    ensures Value(t[..n + 1], 10) == Value(t[..n], 10) * 10 + DigitValue(t[n])
    ensures n < 18 ==> Value(t[..n], 10) * 10 + DigitValue(t[n]) < INT64
  {
    ValueMore(t, n, 10);
    if n < 18 {
      ValueBound(t[..n + 1]);
      EighteenDigitsFit(n + 1);
    }
  }

  lemma {:induction false} DigitsRead(s: Bytes, p: nat, n: nat)
    requires p + n <= |s| && (forall k :: 0 <= k < n ==> IsDec(s[p..][k])) && (p + n < |s| ==> !IsDec(s[p + n]))
    ensures s[p..][..n] == s[p..p + n] && forall k :: p <= k < p + n ==> IsDec(s[k])
    ensures n <= 18 ==> Value(s[p..p + n], 10) < INT64
    ensures 0 < n <= 18 && !(p + n < |s| && s[p + n] == UNDERSCORE) ==> RunAt(s[p..], 10) == Just((s[p..p + n], n))
  {
    var t := s[p..];
    assert t[..n] == s[p..p + n];
    forall k | p <= k < p + n ensures IsDec(s[k]) {
      assert t[k - p] == s[k];
    }
    if n <= 18 {
      ValueBound(t[..n]);
      EighteenDigitsFit(n);
      if n > 0 && !(p + n < |s| && s[p + n] == UNDERSCORE) {
        DigitsAreARun(t[..n]);
        SpanIs(t, n, 10);
      }
    }
  }

  lemma {:induction false} DigitsAreARun(d: Bytes)
    requires d != [] && forall k :: 0 <= k < |d| ==> IsDec(d[k])
    ensures GoodRun(d) && Clean(d) == d
  {
    PlainIsClean(d);
  }

  method ParseDecimal(s: Bytes, p: nat, neg: bool) returns (r: Number)
    requires p <= |s|
    ensures r == DecimalAt(s[p..], neg)
  {
    ghost var t := s[p..];
    var mag, n := ReadDigits(s, p);
    if 0 < n <= 18 && !(p + n < |s| && s[p + n] == UNDERSCORE) {
      if s[p] == 48 && n > 1 {
        return NoNumber;
      }
      if p + n < |s| && (s[p + n] == 46 || s[p + n] == 101 || s[p + n] == 69) {
        return FloatNumber;
      }
      var v: int := mag;
      return IntNumber(if neg then -v else v, n);
    }
    var run := ScanRun(s, p, 10);
    if run.Nothing? {
      return NoNumber;
    }
    var ds, len := run.value.0, run.value.1;
    if |ds| > 1 && ds[0] == 48 {
      return NoNumber;
    }
    if p + len < |s| && (s[p + len] == 46 || s[p + len] == 101 || s[p + len] == 69) {
      return FloatNumber;
    }
    var m := MagFrom(ds, 10);
    if m.Nothing? {
      return NoNumber;
    }
    var v: int := m.value;
    if neg {
      return if v > INT64 then NoNumber else IntNumber(-v, len);
    }
    return if v >= INT64 then NoNumber else IntNumber(v, len);
  }

  /** Reads a number; with `signed` the cursor stands on its sign. */
  method ParseNumber(s: Bytes, from: nat, signed: bool) returns (r: Number)
    requires from < |s|
    ensures r == if signed then NumberAt(s[from + 1..], true, s[from] == 45) else NumberAt(s[from..], false, false)
  {
    var neg := signed && s[from] == 45;
    var p := if signed then from + 1 else from;
    ghost var t := s[p..];
    if p >= |s| {
      return NoNumber;
    }
    if s[p] == 105 || s[p] == 110 {
      assert p + 3 <= |s| ==> t[..3] == s[p..p + 3];
      return if p + 3 <= |s| && (s[p..p + 3] == [105, 110, 102] || s[p..p + 3] == [110, 97, 110]) then FloatNumber
             else NoNumber;
    }
    if !IsDec(s[p]) {
      return NoNumber;
    }
    if s[p] == 48 && p + 1 < |s| && RadixOf(s[p + 1]) > 0 {
      if signed {
        return NoNumber;
      }
      var radix := RadixOf(s[p + 1]);
      var run := ScanRun(s, p + 2, radix);
      assert t[2..] == s[p + 2..];
      if run.Nothing? {
        return NoNumber;
      }
      var m := MagFrom(run.value.0, radix);
      return if m.Nothing? || m.value >= INT64 then NoNumber else IntNumber(m.value, run.value.1 + 2);
    }
    r := ParseDecimal(s, p, neg);
  }

  /** The dispatch's own short path for digit-led numbers: whatever it answers
      without the general parser is what that would have answered. */
  method ParseDigitLed(s: Bytes, p: nat) returns (r: Number)
    requires p < |s| && IsDec(s[p])
    ensures r == NumberAt(s[p..], false, false)
  {
    var mag, n := ReadDigits(s, p);
    if 0 < n <= 18 && s[p] != 48
       && !(p + n < |s| && (s[p + n] == 46 || s[p + n] == 101 || s[p + n] == 69 || s[p + n] == UNDERSCORE)) {
      return IntNumber(mag, n);
    }
    r := ParseNumber(s, p, false);
  }

  // ---------------------------------------------------------------- writing

  function DecText(m: nat): (t: Bytes)
    ensures t != [] && forall k :: 0 <= k < |t| ==> IsDec(t[k])
    ensures t[0] == 48 ==> m == 0
  {
    if m < 10 then [48 + m] else DecText(m / 10) + [48 + m % 10]
  }

  function IntText(v: int): Bytes {
    if v < 0 then [45] + DecText(-v) else DecText(v)
  }

  /** Writes the digits from the last to the first into a small buffer. */
  method EmitInt(b: Bytes, v: int) returns (out: Bytes)
    requires -INT64 <= v < INT64
    ensures out == b + IntText(v)
  {
    var mag: nat := if v < 0 then (-(v + 1)) + 1 else v;
    var text: Bytes := [];
    ghost var whole := DecText(mag);
    var m := mag;
    while m >= 10
      invariant DecText(m) + text == whole
    {
      var d: Byte := 48 + m % 10;
      ghost var before := text;
      text := [d] + text;
      assert DecText(m / 10) + ([d] + before) == (DecText(m / 10) + [d]) + before;
      m := m / 10;
    }
    text := [48 + m] + text;
    if v < 0 {
      text := [45] + text;
    }
    out := b + text;
  }

  lemma {:induction false} DecTextValue(m: nat)
    ensures Value(DecText(m), 10) == m
    decreases m
  {
    if m >= 10 {
      DecTextValue(m / 10);
      assert DecText(m)[..|DecText(m)| - 1] == DecText(m / 10);
    } else {
      assert DecText(m)[..0] == [];
    }
  }

  lemma {:induction false} DecTextLength(m: nat, n: nat)
    requires m < Pow(10, n) && n > 0
    ensures |DecText(m)| <= n
    decreases n
  {
    if m >= 10 {
      assert Pow(10, 1) == 10;
      PowStep(10, n, 1);
      DecTextLength(m / 10, n - 1);
    }
  }

  /** What may follow an integer without becoming part of it. */
  predicate EndsInteger(rest: Bytes) {
    rest == [] || !(IsDec(rest[0]) || rest[0] == UNDERSCORE || rest[0] == 46 || rest[0] == 101 || rest[0] == 69)
  }

  lemma {:induction false} WrittenRun(m: nat, rest: Bytes)
    requires m <= INT64 && EndsInteger(rest)
    ensures var d := DecText(m); RunAt(d + rest, 10) == Just((d, |d|)) && !GoesOnAsFloat(d + rest, |d|)
  {
    NineteenDigits(m);
    hide DecText, Clean, GoodRun;
    var d := DecText(m);
    SpanIs(d + rest, |d|, 10);
    hide SpanOf;
    assert (d + rest)[..|d|] == d;
    DigitsAreARun(d);
  }

  lemma {:induction false} NineteenDigits(m: nat)
    requires m <= INT64
    ensures |DecText(m)| <= 19
  {
    assert Pow(10, 6) == 1_000_000;
    PowAdd(10, 6, 6);
    PowAdd(10, 12, 6);
    PowStep(10, 19, 1);
    DecTextLength(m, 19);
  }

  /** Every 64-bit integer, the smallest included, is read back from its text
      with the cursor behind it, whatever follows unless that would go on the
      number. */
  lemma {:induction false} IntRoundTrip(v: int, rest: Bytes)
    requires -INT64 <= v < INT64 && EndsInteger(rest) && (v == 0 ==> rest == [] || RadixOf(rest[0]) == 0)
    ensures var t := IntText(v) + rest;
            t != [] && (if v < 0 then NumberAt(t[1..], true, t[0] == 45) else NumberAt(t, false, false))
            == IntNumber(v, |DecText(if v < 0 then -v else v)|)
  {
    var m: nat := if v < 0 then -v else v;
    SignedText(v, m, rest);
    WrittenDecimal(m, rest, v < 0);
    WrittenStart(m, rest);
    NumberIsDecimal(DecText(m) + rest, v < 0, v < 0);
    hide *;
  }

  lemma {:induction false} SignedText(v: int, m: nat, rest: Bytes)
    requires m == if v < 0 then -v else v
    ensures var t := IntText(v) + rest;
            if v < 0 then t != [] && t[0] == 45 && t[1..] == DecText(m) + rest else t == DecText(m) + rest
  {
    hide DecText;
  }

  lemma {:induction false} WrittenDecimal(m: nat, rest: Bytes, neg: bool)
    requires m <= INT64 && (!neg ==> m < INT64) && EndsInteger(rest)
    ensures DecimalAt(DecText(m) + rest, neg) == IntNumber(if neg then -(m as int) else m, |DecText(m)|)
  {
    WrittenRun(m, rest);
    DecTextValue(m);
    OneZero(m);
    hide DecText, RunAt, Value;
  }

  lemma {:induction false} WrittenStart(m: nat, rest: Bytes)
    requires m == 0 ==> rest == [] || RadixOf(rest[0]) == 0
    ensures var u := DecText(m) + rest;
            IsDec(u[0]) && !(u[0] == 48 && |u| > 1 && RadixOf(u[1]) > 0)
  {
    OneZero(m);
    var d := DecText(m);
    hide DecText;
    var u := d + rest;
    assert u[0] == d[0] && (|d| == 1 && rest != [] ==> u[1] == rest[0]);
  }

  lemma {:induction false} NumberIsDecimal(u: Bytes, signed: bool, neg: bool)
    requires u != [] && IsDec(u[0]) && !(u[0] == 48 && |u| > 1 && RadixOf(u[1]) > 0)
    ensures NumberAt(u, signed, neg) == DecimalAt(u, neg)
  {
  }

  lemma {:induction false} OneZero(m: nat)
    ensures DecText(m)[0] == 48 <==> DecText(m) == [48]
  {
  }
}
