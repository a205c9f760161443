/** Dates and times: read by position, written back, RFC 3339, section 5.6. */
module Datetimes {
  import opened Document
  import opened Utf8

  datatype Kind = OffsetDateTime | LocalDateTime | LocalDate | LocalTime

  datatype Stamp = Stamp(year: nat, month: nat, day: nat, hour: nat, minute: nat, second: nat, nano: nat, offset: int)

  const HYPHEN: Byte := 45
  const COLON: Byte := 58
  const POINT: Byte := 46

  function DaysIn(y: nat, m: nat): nat {
    if m == 2 then if (y % 4 == 0 && y % 100 != 0) || y % 400 == 0 then 29 else 28
    else if m == 4 || m == 6 || m == 9 || m == 11 then 30
    else 31
  }

  // ------------------------------------------------------------------ reading

  function Digit(c: Byte): nat {
    if IsDec(c) then c - 48 else 0
  }

  /** The number in two digits. */
  function D2(t: Bytes, i: nat): nat
    requires i + 1 < |t|
  {
    Digit(t[i]) * 10 + Digit(t[i + 1])
  }

  predicate TwoDigits(t: Bytes, i: nat) {
    i + 1 < |t| && IsDec(t[i]) && IsDec(t[i + 1])
  }

  /** The text has the shape of a date or of a time. */
  predicate LooksLikeStamp(t: Bytes) {
    LooksLikeDate(t) || LooksLikeTime(t)
  }

  predicate LooksLikeDate(t: Bytes) {
    |t| >= 10 && t[4] == HYPHEN && t[7] == HYPHEN && TwoDigits(t, 0) && TwoDigits(t, 2) && TwoDigits(t, 5)
      && TwoDigits(t, 8)
  }

  predicate LooksLikeTime(t: Bytes) {
    |t| >= 5 && t[2] == COLON && TwoDigits(t, 0) && TwoDigits(t, 3)
  }

  /** Behind a date: a time follows. */
  predicate HasTime(u: Bytes) {
    |u| >= 6 && (u[0] == 84 || u[0] == 116 || u[0] == 32) && TwoDigits(u, 1) && u[3] == COLON && TwoDigits(u, 4)
  }

  datatype Clock = Clock(hour: nat, minute: nat, second: nat, n: nat)

  /** Hours and minutes, and seconds if they are there; `behindDate` reads a
      truncated second as an error. */
  function ClockAt(t: Bytes, behindDate: bool): (r: Maybe<Clock>)
    requires |t| >= 5
    ensures r.Just? ==> r.value.n <= |t|
  {
    var colon := |t| >= (if behindDate then 6 else 8) && t[5] == COLON;
    if colon && !TwoDigits(t, 6) then Nothing
    else
      var h, m, s := D2(t, 0), D2(t, 3), if colon then D2(t, 6) else 0;
      if h > 23 || m > 59 || s > 60 then Nothing else Just(Clock(h, m, s, if colon then 8 else 5))
  }

  function DecRun(t: Bytes): (n: nat)
    ensures n <= |t|
  {
    if t == [] || !IsDec(t[0]) then 0 else 1 + DecRun(t[1..])
  }

  /** The digits that `t` starts with, weighted from `scale` down; those beyond
      the ninth weigh nothing. */
  function Weighted(t: Bytes, scale: nat): nat {
    if t == [] || !IsDec(t[0]) then 0 else Digit(t[0]) * scale + Weighted(t[1..], scale / 10)
  }

  const FIRST_SCALE: nat := 100_000_000

  /** A fraction of a second in nanoseconds, and its length. */
  function FractionAt(t: Bytes): (r: Maybe<(nat, nat)>)
    ensures r.Just? ==> r.value.1 <= |t|
  {
    if t == [] || t[0] != POINT then Just((0, 0))
    else if DecRun(t[1..]) == 0 then Nothing
    else Just((Weighted(t[1..], FIRST_SCALE), 1 + DecRun(t[1..])))
  }

  /** The offset from UTC in seconds, if one is given. */
  function ZoneAt(t: Bytes): (r: Maybe<(Kind, int, nat)>)
    ensures r.Just? ==> r.value.2 <= |t|
  {
    if t != [] && (t[0] == 90 || t[0] == 122) then Just((OffsetDateTime, 0, 1))
    else if |t| >= 6 && (t[0] == 43 || t[0] == HYPHEN) && TwoDigits(t, 1) && t[3] == COLON && TwoDigits(t, 4) then
      if D2(t, 1) > 23 || D2(t, 4) > 59 then Nothing
      else
        var a: int := D2(t, 1) * 3600 + D2(t, 4) * 60;
        Just((OffsetDateTime, if t[0] == HYPHEN then -a else a, 6))
    else Just((LocalDateTime, 0, 0))
  }

  function YearAt(t: Bytes): nat
    requires |t| >= 10
  {
    D2(t, 0) * 100 + D2(t, 2)
  }

  predicate GoodDate(t: Bytes)
    requires |t| >= 10
  {
    1 <= D2(t, 5) <= 12 && 1 <= D2(t, 8) <= DaysIn(YearAt(t), D2(t, 5))
  }

  datatype TimePart = TimePart(hour: nat, minute: nat, second: nat, nano: nat, kind: Kind, offset: int, n: nat)

  /** A clock with its fraction and, behind a date, its offset. */
  function TimeAt(t: Bytes, behindDate: bool): (r: Maybe<TimePart>)
    requires |t| >= 5
  {
    var c := ClockAt(t, behindDate);
    if c.Nothing? then Nothing
    else
      var f := FractionAt(t[c.value.n..]);
      if f.Nothing? then Nothing
      else
        var z := if behindDate then ZoneAt(t[c.value.n..][f.value.1..]) else Just((LocalTime, 0, 0));
        if z.Nothing? then Nothing
        else Just(TimePart(c.value.hour, c.value.minute, c.value.second, f.value.0, z.value.0, z.value.1,
                           c.value.n + f.value.1 + z.value.2))
  }

  /** A date or time, and how long its text is. */
  function StampAt(t: Bytes): (r: Maybe<(Kind, Stamp, nat)>)
    requires LooksLikeStamp(t)
  {
    if t[4] == HYPHEN then
      if |t| < 10 || !GoodDate(t) then Nothing
      else
        var y, mo, d := YearAt(t), D2(t, 5), D2(t, 8);
        var u := t[10..];
        if !HasTime(u) then Just((LocalDate, Stamp(y, mo, d, 0, 0, 0, 0, 0), 10))
        else
          var x := TimeAt(u[1..], true);
          if x.Nothing? then Nothing else Just((x.value.kind, Timed(y, mo, d, x.value), 11 + x.value.n))
    else
      var x := TimeAt(t, false);
      if x.Nothing? then Nothing else Just((LocalTime, Timed(0, 0, 0, x.value), x.value.n))
  }

  function Timed(y: nat, mo: nat, d: nat, x: TimePart): Stamp {
    Stamp(y, mo, d, x.hour, x.minute, x.second, x.nano, x.offset)
  }

  /** One digit of a fraction, or its end. */
  lemma {:induction false} DigitTurn(s: Bytes, p: nat, scale: nat)
    requires p <= |s|
    ensures p == |s| || !IsDec(s[p]) ==> DecRun(s[p..]) == 0 && Weighted(s[p..], scale) == 0
    ensures p < |s| && IsDec(s[p]) ==>
              && DecRun(s[p..]) == 1 + DecRun(s[p + 1..])
              && Weighted(s[p..], scale) == (s[p] - 48) * scale + Weighted(s[p + 1..], scale / 10)
              && (scale == 0 ==> Weighted(s[p..], 0) == Weighted(s[p + 1..], 0))
  {
    if p < |s| {
      assert s[p..][1..] == s[p + 1..];
    }
  }

  /** The loop over the fraction's digits. */
  method ReadFraction(s: Bytes, from: nat) returns (r: Maybe<(nat, nat)>)
    requires from <= |s|
    ensures r == FractionAt(s[from..])
  {
    if from >= |s| || s[from] != POINT {
      return Just((0, 0));
    }
    var p := from + 1;
    assert s[from..][1..] == s[p..];
    if p >= |s| || !IsDec(s[p]) {
      return Nothing;
    }
    var scale, ns := FIRST_SCALE, 0;
    DigitTurn(s, p, scale);
    assert FractionAt(s[from..]) == Just((Weighted(s[p..], FIRST_SCALE), 1 + DecRun(s[p..])));
    hide *;
    while p < |s| && IsDec(s[p])
      invariant from < p <= |s| && 0 <= scale && 0 <= ns
      invariant p + DecRun(s[p..]) == from + 1 + DecRun(s[from + 1..])
      invariant ns + Weighted(s[p..], scale) == Weighted(s[from + 1..], FIRST_SCALE)
    {
      DigitTurn(s, p, scale);
      if scale > 0 {
        ns := ns + (s[p] - 48) * scale;
        scale := scale / 10;
      }
      p := p + 1;
    }
    DigitTurn(s, p, scale);
    return Just((ns, p - from));
  }

  method ReadClock(s: Bytes, p: nat, behindDate: bool) returns (r: Maybe<Clock>)
    requires p + 5 <= |s|
    ensures r == ClockAt(s[p..], behindDate)
  {
    var second, consumed := 0, 5;
    if |s| - p >= (if behindDate then 6 else 8) && s[p + 5] == COLON {
      if |s| - p < 8 || !IsDec(s[p + 6]) || !IsDec(s[p + 7]) {
        return Nothing;
      }
      second, consumed := D2(s, p + 6), 8;
    }
    var hour, minute := D2(s, p), D2(s, p + 3);
    if hour > 23 {
      return Nothing;
    }
    if minute > 59 {
      return Nothing;
    }
    if second > 60 {
      return Nothing;
    }
    return Just(Clock(hour, minute, second, consumed));
  }

  method ReadZone(s: Bytes, p: nat) returns (r: Maybe<(Kind, int, nat)>)
    requires p <= |s|
    ensures r == ZoneAt(s[p..])
  {
    if p < |s| && (s[p] == 90 || s[p] == 122) {
      return Just((OffsetDateTime, 0, 1));
    }
    if p < |s| && (s[p] == 43 || s[p] == HYPHEN) && |s| - p >= 6 && IsDec(s[p + 1]) && IsDec(s[p + 2])
       && s[p + 3] == COLON && IsDec(s[p + 4]) && IsDec(s[p + 5]) {
      var sign: int := if s[p] == HYPHEN then -1 else 1;
      var hours, minutes := D2(s, p + 1), D2(s, p + 4);
      if hours > 23 || minutes > 59 {
        return Nothing;
      }
      return Just((OffsetDateTime, sign * (hours * 3600 + minutes * 60), 6));
    }
    return Just((LocalDateTime, 0, 0));
  }

  /** The parts of a time, with a cursor that moves over them. */
  method ParseTime(s: Bytes, from: nat, behindDate: bool) returns (r: Maybe<TimePart>)
    requires from + 5 <= |s|
    ensures r == TimeAt(s[from..], behindDate)
  {
    hide ClockAt, ZoneAt, FractionAt;
    var p := from;
    var c := ReadClock(s, p, behindDate);
    if c.Nothing? {
      return Nothing;
    }
    assert s[p..][c.value.n..] == s[p + c.value.n..];
    p := p + c.value.n;
    var f := ReadFraction(s, p);
    if f.Nothing? {
      return Nothing;
    }
    assert s[p..][f.value.1..] == s[p + f.value.1..];
    p := p + f.value.1;
    var z: Maybe<(Kind, int, nat)> := Just((LocalTime, 0, 0));
    if behindDate {
      z := ReadZone(s, p);
    }
    if z.Nothing? {
      return Nothing;
    }
    return Just(TimePart(c.value.hour, c.value.minute, c.value.second, f.value.0, z.value.0, z.value.1,
           p - from + z.value.2));
  }

  method ParseStamp(s: Bytes, from: nat) returns (r: Maybe<(Kind, Stamp, nat)>)
    requires from <= |s| && LooksLikeStamp(s[from..])
    ensures r == StampAt(s[from..])
  {
    ghost var t := s[from..];
    if s[from + 4] == HYPHEN {
      var y, mo, d := D2(s, from) * 100 + D2(s, from + 2), D2(s, from + 5), D2(s, from + 8);
      assert y == YearAt(t) && mo == D2(t, 5) && d == D2(t, 8);
      if mo < 1 || mo > 12 {
        return Nothing;
      }
      if d < 1 || d > DaysIn(y, mo) {
        return Nothing;
      }
      var p := from + 10;
      var hasTime := p < |s| && (s[p] == 84 || s[p] == 116 || s[p] == 32) && |s| - p >= 6 && IsDec(s[p + 1])
                     && IsDec(s[p + 2]) && s[p + 3] == COLON && IsDec(s[p + 4]) && IsDec(s[p + 5]);
      assert t[10..] == s[p..];
      assert hasTime == HasTime(s[p..]) && GoodDate(t);
      hide GoodDate, TimeAt, YearAt, D2, HasTime;
      if !hasTime {
        return Just((LocalDate, Stamp(y, mo, d, 0, 0, 0, 0, 0), 10));
      }
      assert s[p..][1..] == s[p + 1..];
      var x := ParseTime(s, p + 1, true);
      return if x.Nothing? then Nothing else Just((x.value.kind, Timed(y, mo, d, x.value), 11 + x.value.n));
    }
    var x := ParseTime(s, from, false);
    return if x.Nothing? then Nothing else Just((LocalTime, Timed(0, 0, 0, x.value), x.value.n));
  }

  // ------------------------------------------------------------------ writing

  /** What the parser can produce: fields in range, and zero where the kind has
      none. */
  predicate Producible(k: Kind, d: Stamp) {
    && (if k.LocalTime? then d.year == 0 && d.month == 0 && d.day == 0
        else d.year <= 9999 && 1 <= d.month <= 12 && 1 <= d.day <= DaysIn(d.year, d.month))
    && (if k.LocalDate? then d.hour == 0 && d.minute == 0 && d.second == 0 && d.nano == 0
        else d.hour <= 23 && d.minute <= 59 && d.second <= 60 && d.nano < 1_000_000_000)
    && (if k.OffsetDateTime? then IsOffset(d.offset) else d.offset == 0)
  }

  predicate IsOffset(offset: int) {
    var a := if offset < 0 then -offset else offset;
    a % 60 == 0 && a / 3600 <= 23
  }

  function DateText(d: Stamp): Bytes
    requires d.year <= 9999 && d.month <= 99 && d.day <= 99
  {
    [48 + d.year / 1000, 48 + (d.year / 100) % 10, 48 + (d.year / 10) % 10, 48 + d.year % 10, HYPHEN,
     48 + d.month / 10, 48 + d.month % 10, HYPHEN, 48 + d.day / 10, 48 + d.day % 10]
  }

  function ClockText(d: Stamp): Bytes
    requires d.hour <= 99 && d.minute <= 99 && d.second <= 99
  {
    [48 + d.hour / 10, 48 + d.hour % 10, COLON, 48 + d.minute / 10, 48 + d.minute % 10, COLON, 48 + d.second / 10,
      48 + d.second % 10]
  }

  /** The lowest `n` digits of `v`. */
  function Digits(n: nat, v: nat): (ds: Bytes)
    ensures |ds| == n && forall k :: 0 <= k < n ==> IsDec(ds[k])
  {
    if n == 0 then [] else Digits(n - 1, v / 10) + [48 + v % 10]
  }

  function Trimmed(ds: Bytes): (r: Bytes)
    ensures |r| <= |ds| && forall k :: 0 <= k < |r| ==> r[k] == ds[k]
  {
    if ds != [] && ds[|ds| - 1] == 48 then Trimmed(ds[..|ds| - 1]) else ds
  }

  function FractionText(ns: nat): Bytes {
    if ns == 0 then [] else [POINT] + Trimmed(Digits(9, ns))
  }

  function ZoneText(offset: int): Bytes
    requires IsOffset(offset)
  {
    if offset == 0 then [90]
    else
      var a := if offset < 0 then -offset else offset;
      [if offset < 0 then HYPHEN else 43, 48 + a / 3600 / 10, 48 + a / 3600 % 10, COLON,
       48 + a % 3600 / 60 / 10, 48 + a % 3600 / 60 % 10]
  }

  function TimeText(k: Kind, d: Stamp): Bytes
    requires Producible(k, d) && !k.LocalDate?
  {
    ClockText(d) + (FractionText(d.nano) + if k.OffsetDateTime? then ZoneText(d.offset) else [])
  }

  function StampText(k: Kind, d: Stamp): Bytes
    requires Producible(k, d)
  {
    if k.LocalDate? then DateText(d)
    else if k.LocalTime? then TimeText(k, d)
    else DateText(d) + ([84] + TimeText(k, d))
  }

  method EmitFraction(b: Bytes, ns: nat) returns (out: Bytes)
    requires ns < 1_000_000_000
    ensures out == b + FractionText(ns)
  {
    out := b;
    if ns == 0 {
      return;
    }
    var digits := FractionDigits(ns);
    hide Digits;
    assert digits[..9] == digits;
    var n := 9;
    while n > 0 && digits[n - 1] == 48
      invariant 0 <= n <= 9 && Trimmed(digits[..n]) == Trimmed(digits)
    {
      assert digits[..n][..n - 1] == digits[..n - 1];
      n := n - 1;
    }
    out := b + ([POINT] + digits[..n]);
  }

  /** The nine digits, from the last to the first. */
  method FractionDigits(ns: nat) returns (digits: Bytes)
    ensures digits == Digits(9, ns)
  {
    digits := [];
    var v := ns;
    var i := 0;
    while i < 9
      invariant 0 <= i <= 9 && |digits| == i && 0 <= v && Digits(9 - i, v) + digits == Digits(9, ns)
    {
      ghost var before := digits;
      var d: Byte := 48 + v % 10;
      digits := [d] + digits;
      assert Digits(9 - i - 1, v / 10) + ([d] + before) == (Digits(9 - i - 1, v / 10) + [d]) + before;
      v := v / 10;
      i := i + 1;
    }
    assert Digits(0, v) + digits == digits;
  }

  method EmitStamp(b: Bytes, k: Kind, d: Stamp) returns (out: Bytes)
    requires Producible(k, d)
    ensures out == b + StampText(k, d)
  {
    out := b;
    if !k.LocalTime? {
      out := out + DateText(d);
      if !k.LocalDate? {
        out := out + [84];
      }
    }
    if !k.LocalDate? {
      ghost var head := out;
      out := out + ClockText(d);
      out := EmitFraction(out, d.nano);
      if k.OffsetDateTime? {
        out := out + ZoneText(d.offset);
      }
      assert out == head + TimeText(k, d);
    }
  }
}
