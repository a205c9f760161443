/** The texts of dates and times, piece by piece as section 5.6 of RFC 3339 lists
    them - seconds and the offset may be missing, and a space may stand for the
    `T` - and that the parser reads exactly these. */
module DatetimeGrammar {
  import opened Sequences
  import opened Document
  import opened Utf8
  import opened Datetimes

  /** full-date */
  predicate FullDate(u: Bytes, d: Stamp) {
    && |u| == 10 && u[4] == HYPHEN && u[7] == HYPHEN
    && TwoDigits(u, 0) && TwoDigits(u, 2) && TwoDigits(u, 5) && TwoDigits(u, 8)
    && d.year == D2(u, 0) * 100 + D2(u, 2)
    && d.month == D2(u, 5) && 1 <= d.month <= 12
    && d.day == D2(u, 8) && 1 <= d.day <= DaysIn(d.year, d.month)
  }

  /** time-hour ":" time-minute [ ":" time-second ] */
  predicate Clocked(u: Bytes, d: Stamp) {
    && (|u| == 5 || (|u| == 8 && u[5] == COLON && TwoDigits(u, 6)))
    && TwoDigits(u, 0) && u[2] == COLON && TwoDigits(u, 3)
    && d.hour == D2(u, 0) <= 23 && d.minute == D2(u, 3) <= 59
    && d.second == (if |u| == 8 then D2(u, 6) else 0) <= 60
  }

  predicate AllDigits(ds: Bytes) {
    forall k :: 0 <= k < |ds| ==> IsDec(ds[k])
  }

  /** [ time-secfrac ] */
  predicate Fraction(u: Bytes, nano: nat) {
    || (u == [] && nano == 0)
    || (|u| >= 2 && u[0] == POINT && AllDigits(u[1..]) && nano == Decimal(FirstDigits(u[1..], 9)))
  }

  /** The first `k` digits, with zeros for those that are missing. */
  function FirstDigits(ds: Bytes, k: nat): (r: Bytes)
    ensures |r| == k
  {
    if k == 0 then [] else if ds == [] then [48] + FirstDigits([], k - 1) else [ds[0]] + FirstDigits(ds[1..], k - 1)
  }

  function Decimal(ds: Bytes): nat {
    if ds == [] then 0 else Decimal(ds[..|ds| - 1]) * 10 + Digit(ds[|ds| - 1])
  }

  /** [ time-offset ] */
  predicate Zone(u: Bytes, k: Kind, offset: int) {
    || (k.LocalDateTime? && u == [] && offset == 0)
    || (k.OffsetDateTime? && (u == [90] || u == [122]) && offset == 0)
    || (k.OffsetDateTime? && NumOffset(u, offset))
  }

  predicate NumOffset(u: Bytes, offset: int) {
    && |u| == 6 && (u[0] == 43 || u[0] == HYPHEN) && u[3] == COLON
    && TwoDigits(u, 1) && D2(u, 1) <= 23 && TwoDigits(u, 4) && D2(u, 4) <= 59
    && offset == (D2(u, 1) * 60 + D2(u, 4)) * 60 * (if u[0] == HYPHEN then -1 else 1)
  }

  predicate IsSeparator(c: Byte) {
    c == 84 || c == 116 || c == 32
  }

  /** The text `u` is a stamp of kind `k`, and means `d`. */
  ghost predicate IsStamp(u: Bytes, k: Kind, d: Stamp) {
    match k
    case LocalDate => FullDate(u, d) && d.hour == 0 && d.minute == 0 && d.second == 0 && d.nano == 0 && d.offset == 0
    case LocalTime =>
      && d.year == 0 && d.month == 0 && d.day == 0 && d.offset == 0
      && exists c, f :: u == c + f && Clocked(c, d) && Fraction(f, d.nano)
    case _ => exists y, t: Byte, c, f, z :: IsDated(u, y, t, c, f, z, k, d)
  }

  predicate IsDated(u: Bytes, y: Bytes, t: Byte, c: Bytes, f: Bytes, z: Bytes, k: Kind, d: Stamp) {
    && u == y + ([t] + (c + (f + z)))
    && FullDate(y, d) && IsSeparator(t) && Clocked(c, d) && Fraction(f, d.nano) && Zone(z, k, d.offset)
  }

  // ------------------------------------------------------------ the fraction

  function PowTen(n: nat): (p: nat)
    ensures p > 0
  {
    if n == 0 then 1 else 10 * PowTen(n - 1)
  }

  lemma {:induction false} DecimalFront(a: Byte, ds: Bytes)
    requires IsDec(a)
    ensures Decimal([a] + ds) == (a - 48) * PowTen(|ds|) + Decimal(ds)
    decreases |ds|
  {
    if ds == [] {
      assert [a] + ds == [a] && [a][..0] == [];
    } else {
      var all, last := [a] + ds, ds[|ds| - 1];
      assert all[..|all| - 1] == [a] + ds[..|ds| - 1] && all[|all| - 1] == last;
      DecimalFront(a, ds[..|ds| - 1]);
      TenTimes(a - 48, PowTen(|ds| - 1));
    }
  }

  lemma {:induction false} TenTimes(a: nat, x: nat)
    ensures a * x * 10 == a * (10 * x)
  {
  }

  /** How much digits that something else follows weigh. */
  lemma {:induction false} WeightIsDecimal(ds: Bytes, x: Bytes, k: nat)
    requires AllDigits(ds) && (x == [] || !IsDec(x[0]))
    ensures Weighted(ds + x, if k == 0 then 0 else PowTen(k - 1)) == Decimal(FirstDigits(ds, k))
    decreases |ds|
  {
    if ds == [] {
      assert ds + x == x;
      ZerosMeanNothing(k);
    } else {
      assert (ds + x)[0] == ds[0] && (ds + x)[1..] == ds[1..] + x;
      WeightIsDecimal(ds[1..], x, if k == 0 then 0 else k - 1);
      hide Decimal, PowTen;
      if k > 0 {
        DecimalFront(ds[0], FirstDigits(ds[1..], k - 1));
        TenthOfPower(k);
      }
    }
  }

  lemma {:induction false} TenthOfPower(k: nat)
    requires k > 0
    ensures PowTen(k - 1) / 10 == if k == 1 then 0 else PowTen(k - 2)
  {
  }

  lemma {:induction false} ZerosMeanNothing(k: nat)
    ensures Decimal(FirstDigits([], k)) == 0
  {
    if k > 0 {
      ZerosMeanNothing(k - 1);
      DecimalFront(48, FirstDigits([], k - 1));
    }
  }

  lemma {:induction false} RunIsDigits(t: Bytes)
    ensures AllDigits(t[..DecRun(t)]) && (DecRun(t) == |t| || !IsDec(t[DecRun(t)]))
  {
    if t != [] && IsDec(t[0]) {
      RunIsDigits(t[1..]);
      assert forall k :: 0 < k < DecRun(t) ==> t[k] == t[1..][..DecRun(t[1..])][k - 1];
    }
  }

  lemma {:induction false} DigitsRun(ds: Bytes, x: Bytes)
    requires AllDigits(ds) && (x == [] || !IsDec(x[0]))
    ensures DecRun(ds + x) == |ds|
    decreases |ds|
  {
    if ds == [] {
      assert ds + x == x;
    } else {
      assert (ds + x)[1..] == ds[1..] + x;
      DigitsRun(ds[1..], x);
    }
  }

  // ----------------------------------------------------- what is read is right

  lemma {:induction false} FractionIsRight(t: Bytes)
    requires FractionAt(t).Just?
    ensures Fraction(t[..FractionAt(t).value.1], FractionAt(t).value.0)
  {
    if t != [] && t[0] == POINT {
      var n := DecRun(t[1..]);
      var ds, x := t[1..][..n], t[1..][n..];
      RunIsDigits(t[1..]);
      assert t[1..] == ds + x && t[..n + 1][1..] == ds;
      assert PowTen(8) == FIRST_SCALE;
      WeightIsDecimal(ds, x, 9);
    }
  }

  lemma {:induction false} ClockIsRight(t: Bytes, behindDate: bool, d: Stamp)
    requires LooksLikeTime(t) && ClockAt(t, behindDate).Just?
    requires var c := ClockAt(t, behindDate).value; d.hour == c.hour && d.minute == c.minute && d.second == c.second
    ensures Clocked(t[..ClockAt(t, behindDate).value.n], d)
  {
  }

  lemma {:induction false} ZoneIsRight(t: Bytes)
    requires ZoneAt(t).Just?
    ensures var z := ZoneAt(t).value; Zone(t[..z.2], z.0, z.1)
  {
  }

  /** The text that a time was read from. */
  lemma {:induction false} TimeIsRight(t: Bytes, behindDate: bool, d: Stamp) returns (c: Bytes, f: Bytes, z: Bytes)
    requires LooksLikeTime(t) && TimeAt(t, behindDate).Just?
    requires var x := TimeAt(t, behindDate).value;
             d.hour == x.hour && d.minute == x.minute && d.second == x.second && d.nano == x.nano
    ensures var x := TimeAt(t, behindDate).value;
            && x.n <= |t| && t[..x.n] == c + (f + z) && Clocked(c, d) && Fraction(f, d.nano)
            && if behindDate then Zone(z, x.kind, x.offset) else z == [] && x.kind.LocalTime? && x.offset == 0
  {
    var cn := ClockAt(t, behindDate).value.n;
    var u := t[cn..];
    var fn := FractionAt(u).value.1;
    var w := u[fn..];
    var zn := if behindDate then ZoneAt(w).value.2 else 0;
    c, f, z := t[..cn], u[..fn], w[..zn];
    ClockIsRight(t, behindDate, d);
    FractionIsRight(u);
    if behindDate {
      ZoneIsRight(w);
    }
    hide ClockAt, FractionAt, ZoneAt, Clocked, Fraction, Zone;
    ThreeParts(t, cn, fn, zn);
  }

  lemma {:induction false} ThreeParts(t: Bytes, a: nat, b: nat, c: nat)
    requires a + b + c <= |t|
    ensures t[..a + b + c] == t[..a] + (t[a..][..b] + t[a..][b..][..c])
  {
  }

  lemma {:induction false} StampIsRight(t: Bytes)
    requires LooksLikeStamp(t) && StampAt(t).Just?
    ensures var r := StampAt(t).value; r.2 <= |t| && IsStamp(t[..r.2], r.0, r.1)
  {
    var r := StampAt(t).value;
    if t[4] == HYPHEN {
      DateIsRight(t, r.1);
      if HasTime(t[10..]) {
        DatedIsRight(t);
      }
    } else {
      var c, f, z := TimeIsRight(t, false, r.1);
      assert c + (f + z) == c + f;
    }
  }

  lemma {:induction false} DatedIsRight(t: Bytes)
    requires LooksLikeDate(t) && GoodDate(t) && HasTime(t[10..]) && StampAt(t).Just?
    ensures var r := StampAt(t).value; r.2 <= |t| && IsStamp(t[..r.2], r.0, r.1)
  {
    var r, u := StampAt(t).value, t[10..];
    DateIsRight(t, r.1);
    var c, f, z := TimeIsRight(u[1..], true, r.1);
    DatedParts(t, TimeAt(u[1..], true).value.n);
    hide TimeAt, FullDate, Clocked, Fraction, Zone, GoodDate, YearAt, D2;
    assert IsDated(t[..r.2], t[..10], u[0], c, f, z, r.0, r.1);
  }

  lemma {:induction false} DatedParts(t: Bytes, n: nat)
    requires 11 + n <= |t|
    ensures t[..11 + n] == t[..10] + ([t[10..][0]] + t[10..][1..][..n])
  {
  }

  lemma {:induction false} DateIsRight(t: Bytes, d: Stamp)
    requires LooksLikeDate(t) && GoodDate(t) && d.year == YearAt(t) && d.month == D2(t, 5) && d.day == D2(t, 8)
    ensures FullDate(t[..10], d)
  {
  }

  // ------------------------------------------------------ what is right is read

  /** Nothing in `x` would go on a stamp of kind `k`. */
  predicate Ends(k: Kind, x: Bytes) {
    if k.LocalDate? then !HasTime(x)
    else
      x == [] ||
      (!IsDec(x[0]) && x[0] != POINT && x[0] != COLON
       && (k.LocalDateTime? ==> x[0] != 90 && x[0] != 122 && x[0] != 43 && x[0] != HYPHEN))
  }

  lemma {:induction false} PrefixDigits(u: Bytes, x: Bytes)
    ensures forall i :: TwoDigits(u, i) ==> TwoDigits(u + x, i) && D2(u + x, i) == D2(u, i)
  {
  }

  lemma {:induction false} ClockIsRead(c: Bytes, x: Bytes, behindDate: bool, d: Stamp)
    requires Clocked(c, d) && (x == [] || x[0] != COLON)
    ensures var u := c + x;
            LooksLikeTime(u) && ClockAt(u, behindDate) == Just(Clock(d.hour, d.minute, d.second, |c|)) && u[|c|..] == x
  {
    PrefixDigits(c, x);
    var u := c + x;
    assert |u| > 5 && |c| == 5 ==> u[5] == x[0];
  }

  lemma {:induction false} FractionIsRead(f: Bytes, x: Bytes, nano: nat)
    requires Fraction(f, nano) && (x == [] || (!IsDec(x[0]) && x[0] != POINT))
    ensures FractionAt(f + x) == Just((nano, |f|)) && (f + x)[|f|..] == x
  {
    if f == [] {
      assert f + x == x;
    } else {
      var ds := f[1..];
      assert (f + x)[1..] == ds + x;
      DigitsRun(ds, x);
      assert PowTen(8) == FIRST_SCALE;
      WeightIsDecimal(ds, x, 9);
    }
  }

  lemma {:induction false} ZoneIsRead(z: Bytes, x: Bytes, k: Kind, offset: int)
    requires Zone(z, k, offset) && Ends(k, x)
    ensures ZoneAt(z + x) == Just((k, offset, |z|))
    ensures z + x == [] || (!IsDec((z + x)[0]) && (z + x)[0] != POINT && (z + x)[0] != COLON)
  {
    PrefixDigits(z, x);
    if z == [] {
      assert z + x == x;
    }
  }

  lemma {:induction false} TimeIsRead(c: Bytes, f: Bytes, w: Bytes, behindDate: bool, d: Stamp, k: Kind, zn: nat)
    requires Clocked(c, d) && Fraction(f, d.nano)
    requires w == [] || (!IsDec(w[0]) && w[0] != POINT && w[0] != COLON)
    requires Just((k, d.offset, zn)) == if behindDate then ZoneAt(w) else Just((LocalTime, 0, 0))
    ensures var t := c + (f + w);
            && LooksLikeTime(t)
            && TimeAt(t, behindDate)
               == Just(TimePart(d.hour, d.minute, d.second, d.nano, k, d.offset, |c| + |f| + zn))
  {
    FractionIsRead(f, w, d.nano);
    assert f + w == [] || (f + w)[0] != COLON;
    ClockIsRead(c, f + w, behindDate, d);
    hide Clocked, Fraction, ClockAt, FractionAt, ZoneAt, TimeAt, LooksLikeTime;
    TimeOfParts(c + (f + w), behindDate, Clock(d.hour, d.minute, d.second, |c|), (d.nano, |f|), (k, d.offset, zn));
  }

  /** Every text of the grammar is read, up to its end, to what it means. */
  lemma {:induction false} StampIsRead(u: Bytes, k: Kind, d: Stamp, x: Bytes)
    requires IsStamp(u, k, d) && Ends(k, x)
    ensures LooksLikeStamp(u + x) && StampAt(u + x) == Just((k, d, |u|))
  {
    match k
    case LocalDate =>
      DateIsRead(u, x, d);
    case LocalTime =>
      var c, f :| u == c + f && Clocked(c, d) && Fraction(f, d.nano);
      TimeIsRead(c, f, x, false, d, LocalTime, 0);
      Assoc(c, f, x);
      TimeAlone(u + x);
    case _ =>
      var y, t: Byte, c, f, z :| IsDated(u, y, t, c, f, z, k, d);
      DatedIsRead(u, y, t, c, f, z, k, d, x);
  }

  lemma {:induction false} DatedIsRead(u: Bytes, y: Bytes, t: Byte, c: Bytes, f: Bytes, z: Bytes, k: Kind, d: Stamp,
                                       x: Bytes)
    requires IsDated(u, y, t, c, f, z, k, d) && Ends(k, x)
    ensures LooksLikeStamp(u + x) && StampAt(u + x) == Just((k, d, |u|))
  {
    hide *;
    PartsOfDated(u, y, t, c, f, z, k, d);
    var w := c + (f + (z + x));
    TailIsRead(c, f, z, k, d, x);
    FiveParts(u, y, t, c, f, z, x, w);
    BothAreRead(y, t, w, k, d, |c| + |f| + |z|);
  }

  lemma {:induction false} TailIsRead(c: Bytes, f: Bytes, z: Bytes, k: Kind, d: Stamp, x: Bytes)
    requires Clocked(c, d) && Fraction(f, d.nano) && Zone(z, k, d.offset) && Ends(k, x)
    ensures var w := c + (f + (z + x));
            LooksLikeTime(w) && TimeAt(w, true)
              == Just(TimePart(d.hour, d.minute, d.second, d.nano, k, d.offset, |c| + |f| + |z|))
  {
    hide *;
    ZoneIsRead(z, x, k, d.offset);
    TimeIsRead(c, f, z + x, true, d, k, |z|);
  }

  lemma {:induction false} BothAreRead(y: Bytes, t: Byte, w: Bytes, k: Kind, d: Stamp, n: nat)
    requires FullDate(y, d) && IsSeparator(t) && LooksLikeTime(w)
    requires TimeAt(w, true) == Just(TimePart(d.hour, d.minute, d.second, d.nano, k, d.offset, n))
    ensures var u := y + ([t] + w); LooksLikeStamp(u) && StampAt(u) == Just((k, d, 11 + n))
  {
    hide *;
    DateIsRead(y, [t] + w, d);
    TimeBehind(t, w);
    StampOfParts(y + ([t] + w), [t] + w, d, TimeAt(w, true).value);
  }

  lemma {:induction false} PartsOfDated(u: Bytes, y: Bytes, t: Byte, c: Bytes, f: Bytes, z: Bytes, k: Kind, d: Stamp)
    requires IsDated(u, y, t, c, f, z, k, d)
    ensures u == y + ([t] + (c + (f + z))) && |y| == 10
    ensures FullDate(y, d) && IsSeparator(t) && Clocked(c, d) && Fraction(f, d.nano) && Zone(z, k, d.offset)
  {
  }

  lemma {:induction false} StampOfParts(t: Bytes, u: Bytes, d: Stamp, x: TimePart)
    requires LooksLikeDate(t) && t[4] == HYPHEN && GoodDate(t) && t[10..] == u && HasTime(u)
    requires YearAt(t) == d.year && D2(t, 5) == d.month && D2(t, 8) == d.day && TimeAt(u[1..], true) == Just(x)
    requires x.hour == d.hour && x.minute == d.minute && x.second == d.second
    requires x.nano == d.nano && x.offset == d.offset
    ensures LooksLikeStamp(t) && StampAt(t) == Just((x.kind, d, 11 + x.n))
  {
    hide TimeAt, GoodDate, HasTime, D2;
  }

  lemma {:induction false} FiveParts(u: Bytes, y: Bytes, t: Byte, c: Bytes, f: Bytes, z: Bytes, x: Bytes, w: Bytes)
    requires u == y + ([t] + (c + (f + z))) && w == c + (f + (z + x))
    ensures u + x == y + ([t] + w) && |u| == |y| + 1 + |c| + |f| + |z|
  {
    Assoc(f, z, x);
    Assoc(c, f + z, x);
    Assoc([t], c + (f + z), x);
    Assoc(y, [t] + (c + (f + z)), x);
  }

  lemma {:induction false} TimeBehind(t: Byte, w: Bytes)
    requires IsSeparator(t) && LooksLikeTime(w)
    ensures HasTime([t] + w) && ([t] + w)[1..] == w
  {
  }

  lemma {:induction false} TimeAlone(t: Bytes)
    requires LooksLikeTime(t)
    ensures t[4] != HYPHEN && LooksLikeStamp(t)
  {
  }

  lemma {:induction false} DateIsRead(y: Bytes, x: Bytes, d: Stamp)
    requires FullDate(y, d)
    ensures var u := y + x;
            && |u| >= 10 && LooksLikeDate(u) && u[4] == HYPHEN && GoodDate(u) && u[10..] == x
            && YearAt(u) == d.year && D2(u, 5) == d.month && D2(u, 8) == d.day
  {
    PrefixDigits(y, x);
  }

  lemma {:induction false} TimeOfParts(t: Bytes, behindDate: bool, c: Clock, f: (nat, nat), z: (Kind, int, nat))
    requires |t| >= 5 && ClockAt(t, behindDate) == Just(c) && FractionAt(t[c.n..]) == Just(f)
    requires Just(z) == if behindDate then ZoneAt(t[c.n..][f.1..]) else Just((LocalTime, 0, 0))
    ensures TimeAt(t, behindDate) == Just(TimePart(c.hour, c.minute, c.second, f.0, z.0, z.1, c.n + f.1 + z.2))
  {
    hide ClockAt, FractionAt, ZoneAt;
  }

  // -------------------------------------------------------------- round trips

  /** Only what is producible has a text ... */
  lemma {:induction false} StampIsProducible(u: Bytes, k: Kind, d: Stamp)
    requires IsStamp(u, k, d)
    ensures Producible(k, d)
  {
    match k
    case LocalDate =>
    case LocalTime =>
      var c, f :| u == c + f && Clocked(c, d) && Fraction(f, d.nano);
      FractionBelowOne(f, d.nano);
    case _ =>
      var y, t: Byte, c, f, z :| IsDated(u, y, t, c, f, z, k, d);
      FractionBelowOne(f, d.nano);
      ZoneIsOffset(z, k, d.offset);
  }

  lemma {:induction false} FractionBelowOne(f: Bytes, nano: nat)
    requires Fraction(f, nano)
    ensures nano < 1_000_000_000
  {
    assert PowTen(9) == 1_000_000_000;
    if f != [] {
      DecimalBound(FirstDigits(f[1..], 9));
    }
  }

  lemma {:induction false} DecimalBound(ds: Bytes)
    ensures Decimal(ds) < PowTen(|ds|)
    decreases |ds|
  {
    if ds != [] {
      DecimalBound(ds[..|ds| - 1]);
    }
  }

  lemma {:induction false} ZoneIsOffset(z: Bytes, k: Kind, offset: int)
    requires Zone(z, k, offset)
    ensures if k.OffsetDateTime? then IsOffset(offset) else offset == 0
  {
  }

  /** ... so only that comes out of the parser. */
  lemma {:induction false} ParsedIsProducible(t: Bytes)
    requires LooksLikeStamp(t) && StampAt(t).Just?
    ensures var r := StampAt(t).value; Producible(r.0, r.1)
  {
    StampIsRight(t);
    StampIsProducible(t[..StampAt(t).value.2], StampAt(t).value.0, StampAt(t).value.1);
  }

  lemma {:induction false} DigitsMean(n: nat, v: nat)
    requires v < PowTen(n)
    ensures Decimal(Digits(n, v)) == v
    decreases n
  {
    if n > 0 {
      DigitsMean(n - 1, v / 10);
      assert Digits(n, v)[..n - 1] == Digits(n - 1, v / 10);
    }
  }

  /** Trailing zeros come back. */
  lemma {:induction false} TrimmedIsPadded(ds: Bytes)
    ensures FirstDigits(Trimmed(ds), |ds|) == ds
    decreases |ds|
  {
    if ds != [] && ds[|ds| - 1] == 48 {
      var n := |ds| - 1;
      TrimmedIsPadded(ds[..n]);
      PaddedMore(Trimmed(ds[..n]), n);
      assert ds == ds[..n] + [48];
    } else {
      AllFirst(ds);
    }
  }

  lemma {:induction false} PaddedMore(ds: Bytes, n: nat)
    requires |ds| <= n
    ensures FirstDigits(ds, n + 1) == FirstDigits(ds, n) + [48]
    decreases n
  {
    if n > 0 {
      PaddedMore(if ds == [] then [] else ds[1..], n - 1);
    }
  }

  lemma {:induction false} AllFirst(ds: Bytes)
    ensures FirstDigits(ds, |ds|) == ds
    decreases |ds|
  {
    if ds != [] {
      AllFirst(ds[1..]);
    }
  }

  lemma {:induction false} FractionTextIsFraction(ns: nat)
    requires ns < 1_000_000_000
    ensures Fraction(FractionText(ns), ns)
  {
    if ns > 0 {
      var ds := Digits(9, ns);
      assert PowTen(9) == 1_000_000_000;
      DigitsMean(9, ns);
      TrimmedIsPadded(ds);
      assert FractionText(ns)[1..] == Trimmed(ds);
      if Trimmed(ds) == [] {
        ZerosMeanNothing(9);
      }
    }
  }

  lemma {:induction false} FractionRoundTrip(ns: nat, t: Bytes)
    requires ns < 1_000_000_000 && (t == [] || (!IsDec(t[0]) && t[0] != POINT))
    ensures FractionAt(FractionText(ns) + t) == Just((ns, |FractionText(ns)|))
    ensures (FractionText(ns) + t)[|FractionText(ns)|..] == t
  {
    FractionTextIsFraction(ns);
    FractionIsRead(FractionText(ns), t, ns);
  }

  lemma {:induction false} TensAndOnes(v: nat)
    requires v <= 99
    ensures v / 10 <= 9 && v % 10 <= 9 && v / 10 * 10 + v % 10 == v
  {
  }

  lemma {:induction false} YearDigits(y: nat)
    requires y <= 9999
    ensures y / 1000 <= 9 && (y / 100) % 10 <= 9 && (y / 10) % 10 <= 9 && y % 10 <= 9
    ensures (y / 1000 * 10 + (y / 100) % 10) * 100 + ((y / 10) % 10 * 10 + y % 10) == y
  {
  }

  lemma {:induction false} DateTextIsDate(d: Stamp)
    requires d.year <= 9999 && 1 <= d.month <= 12 && 1 <= d.day <= DaysIn(d.year, d.month)
    ensures FullDate(DateText(d), d)
  {
    YearDigits(d.year);
    TensAndOnes(d.month);
    TensAndOnes(d.day);
  }

  lemma {:induction false} ClockTextIsClock(d: Stamp)
    requires d.hour <= 23 && d.minute <= 59 && d.second <= 60
    ensures Clocked(ClockText(d), d)
  {
    TensAndOnes(d.hour);
    TensAndOnes(d.minute);
    TensAndOnes(d.second);
  }

  lemma {:induction false} ZoneTextIsZone(offset: int)
    requires IsOffset(offset)
    ensures Zone(ZoneText(offset), OffsetDateTime, offset)
  {
    if offset != 0 {
      var a: int := if offset < 0 then -offset else offset;
      TensAndOnes(a / 3600);
      TensAndOnes(a % 3600 / 60);
    }
  }

  /** What is written for a producible stamp is a text of the grammar. */
  lemma {:induction false} TextIsStamp(k: Kind, d: Stamp)
    requires Producible(k, d)
    ensures IsStamp(StampText(k, d), k, d)
  {
    if !k.LocalTime? {
      DateTextIsDate(d);
    }
    if !k.LocalDate? {
      ClockTextIsClock(d);
      FractionTextIsFraction(d.nano);
      var zone := if k.OffsetDateTime? then ZoneText(d.offset) else [];
      if k.OffsetDateTime? {
        ZoneTextIsZone(d.offset);
      }
      hide FullDate, Clocked, Fraction, Zone, DateText, ClockText, FractionText, ZoneText;
      if k.LocalTime? {
        assert FractionText(d.nano) + [] == FractionText(d.nano);
      } else {
        assert IsDated(StampText(k, d), DateText(d), 84, ClockText(d), FractionText(d.nano), zone, k, d);
      }
    }
  }

  /** What may follow a value on its line or in its container. */
  predicate Terminates(rest: Bytes) {
    rest == [] || rest[0] == 10 || rest[0] == 13 || rest[0] == 44 || rest[0] == 93 || rest[0] == 125
  }

  /** Every date or time the parser can produce is read back from its text, with
      the cursor behind it. */
  lemma {:induction false} StampRoundTrip(k: Kind, d: Stamp, rest: Bytes)
    requires Producible(k, d) && Terminates(rest)
    ensures var t := StampText(k, d) + rest;
            LooksLikeStamp(t) && StampAt(t) == Just((k, d, |StampText(k, d)|))
  {
    TextIsStamp(k, d);
    StampIsRead(StampText(k, d), k, d, rest);
  }
}
