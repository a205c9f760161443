/** What the characters of a document mean, with the characters written out:
    UTF-8, escapes, digits of every radix, bare keys, and the calendar. */
module Spelling {
  import opened Document
  import opened Sequences
  import opened Utf8
  import Arithmetic
  import Strings
  import Numbers
  import Datetimes
  import HeaderText
  import KeyText

  // ------------------------------------------------------------------- UTF-8

  /** The code point of one character: what is left of each byte without the bits
      that mark it, most significant first. */
  function Decoded(t: Bytes): int
    requires 1 <= |t| <= 4
  {
    if |t| == 1 then t[0]
    else if |t| == 2 then (t[0] as int - 0xC0) * 0x40 + (t[1] as int - 0x80)
    else if |t| == 3 then (t[0] as int - 0xE0) * 0x1000 + (t[1] as int - 0x80) * 0x40 + (t[2] as int - 0x80)
    else
      (t[0] as int - 0xF0) * 0x40000 + (t[1] as int - 0x80) * 0x1000 + (t[2] as int - 0x80) * 0x40
      + (t[3] as int - 0x80)
  }

  lemma {:induction false} SixBits(high: nat, low: nat)
    requires low < 64
    ensures (high * 64 + low) / 64 == high && (high * 64 + low) % 64 == low
  {
  }

  lemma {:induction false} SixBitsOf(cp: nat)
    ensures cp == cp / 64 * 64 + cp % 64 && cp / 64 / 64 == cp / 4096 && cp / 4096 / 64 == cp / 262144
  {
  }

  /** A code point is encoded as the character that decodes to it. */
  lemma {:induction false} EncodeThenDecode(cp: nat)
    requires IsScalar(cp)
    ensures 1 <= |Encode(cp)| <= 4 && CharLength(Encode(cp)) == |Encode(cp)| && Decoded(Encode(cp)) == cp
  {
    EncodeIsChar(cp);
    EncodedBytes(cp);
    SixBitsOf(cp);
    SixBitsOf(cp / 64);
    SixBitsOf(cp / 4096);
    hide Encode, CharLength, IsScalar;
  }

  lemma {:induction false} EncodedBytes(cp: nat)
    requires IsScalar(cp)
    ensures var e, a, b, c := Encode(cp), cp / 64, cp / 4096, cp / 262144;
            && (cp < 0x80 ==> |e| == 1 && e[0] == cp)
            && (0x80 <= cp < 0x800 ==> |e| == 2 && e[0] == 0xC0 + a && e[1] == 0x80 + cp % 64)
            && (0x800 <= cp < 0x10000 ==>
                  |e| == 3 && e[0] == 0xE0 + b && e[1] == 0x80 + a % 64 && e[2] == 0x80 + cp % 64)
            && (0x10000 <= cp ==>
                  |e| == 4 && e[0] == 0xF0 + c && e[1] == 0x80 + b % 64 && e[2] == 0x80 + a % 64
                  && e[3] == 0x80 + cp % 64)
  {
  }

  /** The ranges of the bytes of a character, as far as the decoding needs them. */
  lemma {:induction false} CharBytes(t: Bytes)
    requires t != [] && CharLength(t) == |t|
    ensures |t| <= 4 && IsScalar(if Decoded(t) >= 0 then Decoded(t) else 0)
    ensures |t| == 1 ==> 0 <= Decoded(t) < 0x80
    ensures |t| == 2 ==> 0x80 <= Decoded(t) < 0x800
    ensures |t| == 3 ==> 0x800 <= Decoded(t) < 0x10000
    ensures |t| == 4 ==> 0x10000 <= Decoded(t)
    ensures |t| > 1 ==> t[0] >= 0xC0 && forall k :: 0 < k < |t| ==> 0x80 <= t[k] < 0xC0
    ensures |t| == 3 ==> t[0] >= 0xE0
    ensures |t| == 4 ==> t[0] >= 0xF0
  {
  }

  /** And every well-formed character comes from the code point it decodes to. */
  lemma {:induction false} DecodeThenEncode(t: Bytes)
    requires t != [] && CharLength(t) == |t|
    ensures Decoded(t) >= 0 && IsScalar(Decoded(t)) && Encode(Decoded(t)) == t
  {
    CharBytes(t);
    hide CharLength, Encode, IsScalar;
    EncodedBytes(Decoded(t));
    if |t| == 3 {
      ThreeSplit(t);
    } else if |t| == 4 {
      FourSplit(t);
    } else if |t| == 2 {
      SixBits(t[0] as int - 0xC0, t[1] as int - 0x80);
    }
    hide Decoded;
  }

  lemma {:induction false} ThreeSplit(t: Bytes)
    requires |t| == 3 && t[0] >= 0xE0 && 0x80 <= t[1] < 0xC0 && 0x80 <= t[2] < 0xC0
    ensures var cp := Decoded(t);
            0xE0 + cp / 4096 == t[0] && 0x80 + (cp / 64) % 64 == t[1] && 0x80 + cp % 64 == t[2]
  {
    var high := (t[0] as int - 0xE0) * 64 + (t[1] as int - 0x80);
    SixBits(t[0] as int - 0xE0, t[1] as int - 0x80);
    SixBits(high, t[2] as int - 0x80);
    SixBitsOf(Decoded(t));
  }

  lemma {:induction false} FourSplit(t: Bytes)
    requires |t| == 4 && t[0] >= 0xF0 && 0x80 <= t[1] < 0xC0 && 0x80 <= t[2] < 0xC0 && 0x80 <= t[3] < 0xC0
    ensures var cp := Decoded(t);
            && 0xF0 + cp / 262144 == t[0] && 0x80 + (cp / 4096) % 64 == t[1]
            && 0x80 + (cp / 64) % 64 == t[2] && 0x80 + cp % 64 == t[3]
  {
    var top := (t[0] as int - 0xF0) * 64 + (t[1] as int - 0x80);
    var high := top * 64 + (t[2] as int - 0x80);
    SixBits(t[0] as int - 0xF0, t[1] as int - 0x80);
    SixBits(top, t[2] as int - 0x80);
    SixBits(high, t[3] as int - 0x80);
    SixBitsOf(Decoded(t));
  }

  // ------------------------------------------------------------------ digits

  const LOWER: string := "0123456789abcdef"
  const UPPER: string := "0123456789ABCDEF"

  function DigitChar(v: nat, upper: bool): Byte
    requires v < 16
  {
    B(if upper then UPPER[v] else LOWER[v])
  }

  /** The digits of the three readers stand for what they look like. */
  lemma {:induction false} DigitsMean(v: nat, upper: bool)
    requires v < 16
    ensures var c := DigitChar(v, upper);
            && Numbers.DigitValue(c) == v
            && Strings.IsHex(c) && Strings.HexValue(c) == v
            && (v < 10 ==> IsDec(c) && Datetimes.Digit(c) == v)
            && (Numbers.IsDigit(c, 16) && (Numbers.IsDigit(c, 10) <==> v < 10))
            && (Numbers.IsDigit(c, 8) <==> v < 8) && (Numbers.IsDigit(c, 2) <==> v < 2)
            && c != Numbers.UNDERSCORE
  {
  }

  /** Nothing else is a digit. */
  lemma {:induction false} OnlyDigitsAre(c: Byte)
    requires Numbers.IsDigit(c, 16) || Strings.IsHex(c)
    ensures exists v: nat, upper :: v < 16 && c == DigitChar(v, upper)
  {
    var v := Numbers.DigitValue(c);
    assert c == DigitChar(v, false) || c == DigitChar(v, true);
  }

  /** A number written with digits of a radix. */
  function Written(v: nat, radix: nat, upper: bool): (ds: Bytes)
    requires 2 <= radix <= 16
    ensures ds != []
    decreases v
  {
    if v < radix then [DigitChar(v, upper)] else Written(v / radix, radix, upper) + [DigitChar(v % radix, upper)]
  }

  lemma {:induction false} WrittenMeans(v: nat, radix: nat, upper: bool)
    requires radix == 2 || radix == 8 || radix == 10 || radix == 16
    ensures Numbers.Value(Written(v, radix, upper), radix) == v
    decreases v
  {
    hide Numbers.Value, Numbers.DigitValue, DigitChar;
    Parts(v, radix);
    DigitsMean(v % radix, upper);
    if v < radix {
      OneDigitMeans(DigitChar(v, upper), radix);
    } else {
      WrittenMeans(v / radix, radix, upper);
      LastDigitMeans(Written(v / radix, radix, upper), DigitChar(v % radix, upper), radix);
    }
  }

  ghost predicate AllDigits(ds: Bytes, radix: nat) {
    forall k :: 0 <= k < |ds| ==> Numbers.IsDigit(ds[k], radix) && ds[k] != Numbers.UNDERSCORE
  }

  lemma {:induction false} WrittenIsDigits(v: nat, radix: nat, upper: bool)
    requires radix == 2 || radix == 8 || radix == 10 || radix == 16
    ensures AllDigits(Written(v, radix, upper), radix)
    decreases v
  {
    hide DigitChar, Numbers.IsDigit;
    Parts(v, radix);
    DigitIsOne(v % radix, radix, upper);
    if v >= radix {
      WrittenIsDigits(v / radix, radix, upper);
    }
  }

  lemma {:induction false} DigitIsOne(v: nat, radix: nat, upper: bool)
    requires (radix == 2 || radix == 8 || radix == 10 || radix == 16) && v < radix
    ensures Numbers.IsDigit(DigitChar(v, upper), radix) && DigitChar(v, upper) != Numbers.UNDERSCORE
  {
    DigitsMean(v, upper);
  }

  lemma {:induction false} OneDigitMeans(c: Byte, radix: nat)
    ensures Numbers.Value([c], radix) == Numbers.DigitValue(c)
  {
    assert [c][..0] == [] && Numbers.Value([], radix) == 0;
  }

  lemma {:induction false} LastDigitMeans(before: Bytes, c: Byte, radix: nat)
    ensures Numbers.Value(before + [c], radix) == Numbers.Value(before, radix) * radix + Numbers.DigitValue(c)
  {
    assert (before + [c])[..|before|] == before;
  }

  lemma {:induction false} Parts(v: nat, radix: nat)
    requires radix == 2 || radix == 8 || radix == 10 || radix == 16
    ensures v == (v / radix) * radix + v % radix && v % radix < radix
    ensures v >= radix ==> v / radix < v
    ensures v < radix ==> v % radix == v
  {
    if radix == 2 {
    } else if radix == 8 {
    } else if radix == 10 {
    }
  }

  lemma {:induction false} WrittenLength(v: nat, radix: nat, upper: bool, n: nat)
    requires 2 <= radix <= 16 && n >= 1 && v < Arithmetic.Pow(2, n)
    ensures |Written(v, radix, upper)| <= n
    decreases n
  {
    if v >= radix {
      HalfAtMost(v, radix);
      WrittenLength(v / radix, radix, upper, n - 1);
    }
  }

  lemma {:induction false} HalfAtMost(v: nat, radix: nat)
    requires 2 <= radix
    ensures v / radix <= v / 2
  {
    var q := v / radix;
    assert v == q * radix + v % radix;
    assert q * radix >= q * 2;
  }

  predicate IsPrefix(c: char, radix: nat) {
    (c == 'x' && radix == 16) || (c == 'o' && radix == 8) || (c == 'b' && radix == 2)
  }

  /** `0x`, `0o` and `0b` before the digits of a number that fits read as that
      number, whatever the case of the digits. */
  lemma {:induction false} RadixRoundTrip(prefix: char, radix: nat, v: nat, upper: bool, rest: Bytes)
    requires IsPrefix(prefix, radix) && v < Numbers.INT64
    requires rest != [] ==> !Numbers.IsDigit(rest[0], radix) && rest[0] != Numbers.UNDERSCORE
    ensures var ds := Written(v, radix, upper);
            Numbers.NumberAt([B('0'), B(prefix)] + ds + rest, false, false) == Numbers.IntNumber(v, 2 + |ds|)
  {
    hide Written, Numbers.NumberAt, Numbers.RunAt, Numbers.Value, Numbers.IsDigit;
    var ds := Written(v, radix, upper);
    RunOfDigits(v, radix, upper, rest);
    BehindPrefix(prefix, radix, ds + rest);
    Assoc([B('0'), B(prefix)], ds, rest);
  }

  lemma {:induction false} BehindPrefix(prefix: char, radix: nat, t: Bytes)
    requires IsPrefix(prefix, radix)
    ensures Numbers.NumberAt([B('0'), B(prefix)] + t, false, false) == Numbers.RadixAt(t, radix)
  {
    hide Numbers.RadixAt, Numbers.DecimalAt;
    var u := [B('0'), B(prefix)] + t;
    assert u[0] == 48 && u[1] == B(prefix) && u[2..] == t;
  }

  /** Decimal digits, too, and they are those that are written for a number. */
  lemma {:induction false} DecimalRoundTrip(v: nat, rest: Bytes)
    requires v < Numbers.INT64
    requires rest != [] ==> !IsDec(rest[0]) && rest[0] != Numbers.UNDERSCORE
    requires !Numbers.GoesOnAsFloat(rest, 0)
    requires v == 0 ==> rest == [] || Numbers.RadixOf(rest[0]) == 0
    ensures Numbers.DecText(v) == Written(v, 10, false)
    ensures Numbers.NumberAt(Written(v, 10, false) + rest, false, false) ==
            Numbers.IntNumber(v, |Written(v, 10, false)|)
  {
    var ds := Written(v, 10, false);
    DecTextIsWritten(v);
    RunOfDigits(v, 10, false, rest);
    WrittenIsDigits(v, 10, false);
    FirstDigit(v);
    NoPrefix(ds, rest);
    hide Written, Numbers.DecText, Numbers.Value, Numbers.RunAt, Numbers.NumberAt, Numbers.IsDigit;
    assert |ds| < |ds + rest| ==> (ds + rest)[|ds|] == rest[0];
  }

  lemma {:induction false} NoPrefix(ds: Bytes, rest: Bytes)
    requires ds != [] && AllDigits(ds, 10) && (ds[0] == B('0') ==> |ds| == 1)
    requires ds[0] == B('0') ==> rest == [] || Numbers.RadixOf(rest[0]) == 0
    ensures Numbers.NumberAt(ds + rest, false, false) == Numbers.DecimalAt(ds + rest, false)
  {
    hide Numbers.DecimalAt, Numbers.RadixAt;
    var t := ds + rest;
    assert t[0] == ds[0] && (|ds| == 1 && rest != [] ==> t[1] == rest[0]);
  }

  lemma {:induction false} FirstDigit(v: nat)
    ensures IsDec(Written(v, 10, false)[0]) && (v == 0 ==> |Written(v, 10, false)| == 1)
    ensures Written(v, 10, false)[0] == B('0') <==> v == 0
    decreases v
  {
    if v >= 10 {
      FirstDigit(v / 10);
    }
  }

  lemma {:induction false} DecTextIsWritten(v: nat)
    ensures Numbers.DecText(v) == Written(v, 10, false)
    decreases v
  {
    DigitsMean(v % 10, false);
    if v >= 10 {
      DecTextIsWritten(v / 10);
    }
  }

  lemma {:induction false} RunOfDigits(v: nat, radix: nat, upper: bool, rest: Bytes)
    requires (radix == 2 || radix == 8 || radix == 10 || radix == 16) && v < Numbers.INT64
    requires rest != [] ==> !Numbers.IsDigit(rest[0], radix) && rest[0] != Numbers.UNDERSCORE
    ensures var ds := Written(v, radix, upper);
            && Numbers.RunAt(ds + rest, radix) == Just((ds, |ds|)) && Numbers.Value(ds, radix) == v
  {
    hide Written, Arithmetic.Pow, Numbers.Value, Numbers.RunAt, Numbers.IsDigit;
    WrittenMeans(v, radix, upper);
    WrittenIsDigits(v, radix, upper);
    TwoTo63();
    WrittenLength(v, radix, upper, 63);
    DigitsAreRun(Written(v, radix, upper), radix, rest);
  }

  lemma {:induction false} DigitsAreRun(ds: Bytes, radix: nat, rest: Bytes)
    requires ds != [] && |ds| <= Numbers.MAX_DIGITS && AllDigits(ds, radix)
    requires rest != [] ==> !Numbers.IsDigit(rest[0], radix) && rest[0] != Numbers.UNDERSCORE
    ensures Numbers.RunAt(ds + rest, radix) == Just((ds, |ds|))
  {
    hide Numbers.Clean, Numbers.SpanOf, Numbers.IsDigit;
    Numbers.SpanIs(ds + rest, |ds|, radix);
    assert (ds + rest)[..|ds|] == ds;
    Numbers.PlainIsClean(ds);
  }

  lemma {:induction false} TwoTo63()
    ensures Arithmetic.Pow(2, 63) == Numbers.INT64
  {
    Arithmetic.TwoTo64();
  }

  // ----------------------------------------------------------------- escapes

  /** The letters behind a backslash and what they stand for. */
  const ESCAPES: map<char, Byte> :=
    map['b' := 0x08, 't' := 0x09, 'n' := 0x0A, 'f' := 0x0C, 'r' := 0x0D, '"' := 0x22, '\\' := 0x5C, 'e' := 0x1B]

  const BLANKS: set<char> := {' ', '\t', '\n', '\r'}

  lemma {:induction false} EscapeMeans(c: char, rest: Bytes, ml: bool)
    requires c in ESCAPES
    ensures Strings.EscapeAt([B('\\'), B(c)] + rest, ml) == Just(([ESCAPES[c]], 2))
  {
    var t := [B('\\'), B(c)] + rest;
    assert t[0] == B('\\') && t[1] == B(c);
  }

  /** Exactly `digits` hexadecimal digits. */
  function HexText(v: nat, digits: nat, upper: bool): (t: Bytes)
    ensures |t| == digits
  {
    if digits == 0 then [] else HexText(v / 16, digits - 1, upper) + [DigitChar(v % 16, upper)]
  }

  lemma {:induction false} HexIsRead(v: nat, digits: nat, upper: bool, rest: Bytes)
    requires v < Arithmetic.Pow(16, digits)
    ensures Strings.Hex(HexText(v, digits, upper) + rest, digits) == Just(v)
    decreases digits
  {
    if digits > 0 {
      var last := [DigitChar(v % 16, upper)];
      DigitsMean(v % 16, upper);
      HexIsRead(v / 16, digits - 1, upper, last + rest);
      assert HexText(v, digits, upper) + rest == HexText(v / 16, digits - 1, upper) + (last + rest);
    }
  }

  /** `\x`, `\u` and `\U` with two, four and eight digits stand for the UTF-8 of the
      code point they give, unless that is a surrogate or too large. */
  lemma {:induction false} CodePointEscape(c: char, digits: nat, cp: nat, upper: bool, rest: Bytes, ml: bool)
    requires (c == 'x' && digits == 2) || (c == 'u' && digits == 4) || (c == 'U' && digits == 8)
    requires cp < Arithmetic.Pow(16, digits)
    ensures Strings.EscapeAt([B('\\'), B(c)] + HexText(cp, digits, upper) + rest, ml) ==
            if IsScalar(cp) then Just((Encode(cp), 2 + digits)) else Nothing
  {
    var t := [B('\\'), B(c)] + HexText(cp, digits, upper) + rest;
    assert t[0] == B('\\') && t[1] == B(c) && t[2..] == HexText(cp, digits, upper) + rest;
    HexIsRead(cp, digits, upper, rest);
    hide Strings.Hex, HexText;
  }

  /** Any other letter makes the string invalid, but for blanks before a line end
      where strings may have several lines. */
  lemma {:induction false} NoOtherEscape(e: Byte, rest: Bytes, ml: bool)
    requires (forall c :: c in ESCAPES ==> c as int != e) && e != B('x') && e != B('u') && e != B('U')
    requires ml ==> forall c :: c in BLANKS ==> c as int != e
    ensures Strings.EscapeAt([B('\\'), e] + rest, ml) == Nothing
  {
    var t := [B('\\'), e] + rest;
    assert t[0] == B('\\') && t[1] == e;
    assert 'b' in ESCAPES && 't' in ESCAPES && 'n' in ESCAPES && 'f' in ESCAPES && 'r' in ESCAPES;
    assert '"' in ESCAPES && '\\' in ESCAPES && 'e' in ESCAPES;
    assert ' ' in BLANKS && '\t' in BLANKS && '\n' in BLANKS && '\r' in BLANKS;
  }

  /** Between double quotes on one line a byte is kept as it is, unless it is a
      control character other than the tab, the quote or the backslash. */
  lemma {:induction false} PlainByteIsKept(c: Byte, rest: Bytes)
    requires c != B('"') && c != B('\\')
    ensures Strings.TurnAt([c] + rest, Strings.QUOTE, false) ==
            if c == B('\t') || (B(' ') <= c && c != 0x7F) then Strings.More([c], 1) else Strings.Fail
  {
    assert ([c] + rest)[0] == c;
  }

  // ------------------------------------------------------------------- dates

  function Two(v: nat): Bytes
    requires v < 100
  {
    [DigitChar(v / 10, false), DigitChar(v % 10, false)]
  }

  lemma {:induction false} TwoIs(v: nat)
    requires v < 100
    ensures Two(v) == [48 + v / 10, 48 + v % 10]
  {
    DigitsMean(v / 10, false);
    DigitsMean(v % 10, false);
    LowDigits(v / 10);
    LowDigits(v % 10);
  }

  lemma {:induction false} LowDigits(v: nat)
    requires v < 10
    ensures DigitChar(v, false) == 48 + v
  {
  }

  /** A date, a clock and an offset with their separators. */
  lemma {:induction false} DateIsSpelled(d: Datetimes.Stamp)
    requires d.year <= 9999 && d.month <= 99 && d.day <= 99
    ensures Datetimes.DateText(d) ==
            Two(d.year / 100) + Two(d.year % 100) + [B('-')] + Two(d.month) + [B('-')] + Two(d.day)
  {
    YearDigits(d.year);
    TwoIs(d.year / 100);
    TwoIs(d.year % 100);
    TwoIs(d.month);
    TwoIs(d.day);
    hide Two;
  }

  lemma {:induction false} ClockIsSpelled(d: Datetimes.Stamp)
    requires d.hour <= 99 && d.minute <= 99 && d.second <= 99
    ensures Datetimes.ClockText(d) == Two(d.hour) + [B(':')] + Two(d.minute) + [B(':')] + Two(d.second)
  {
    TwoIs(d.hour);
    TwoIs(d.minute);
    TwoIs(d.second);
    hide Two;
  }

  lemma {:induction false} ZoneIsSpelled(offset: int)
    requires Datetimes.IsOffset(offset)
    ensures Datetimes.ZoneText(offset) ==
            if offset == 0 then [B('Z')]
            else
              var a := if offset < 0 then -offset else offset;
              [B(if offset < 0 then '-' else '+')] + Two(a / 3600) + [B(':')] + Two(a % 3600 / 60)
  {
    if offset != 0 {
      var a := if offset < 0 then -offset else offset;
      TwoIs(a / 3600);
      TwoIs(a % 3600 / 60);
      hide Two;
    }
  }

  /** A whole stamp, its fraction without trailing zeros. */
  lemma {:induction false} StampIsSpelled(d: Datetimes.Stamp)
    requires Datetimes.Producible(Datetimes.OffsetDateTime, d)
    ensures Datetimes.StampText(Datetimes.OffsetDateTime, d) ==
            Datetimes.DateText(d) + [B('T')] + Datetimes.ClockText(d)
            + (if d.nano == 0 then [] else [B('.')] + Datetimes.Trimmed(Datetimes.Digits(9, d.nano)))
            + Datetimes.ZoneText(d.offset)
  {
    hide Datetimes.Digits, Datetimes.Trimmed, Datetimes.DateText, Datetimes.ClockText, Datetimes.ZoneText;
    var a, c, z := Datetimes.DateText(d), Datetimes.ClockText(d), Datetimes.ZoneText(d.offset);
    var f := Datetimes.FractionText(d.nano);
    assert f == if d.nano == 0 then [] else [B('.')] + Datetimes.Trimmed(Datetimes.Digits(9, d.nano));
    hide Datetimes.FractionText;
    Assoc(a, [B('T')], c + (f + z));
    Assoc(a + [B('T')], c, f + z);
    Assoc(a + [B('T')] + c, f, z);
  }

  lemma {:induction false} YearDigits(y: nat)
    requires y <= 9999
    ensures y / 100 / 10 == y / 1000 && y / 100 % 10 == (y / 100) % 10
    ensures y % 100 / 10 == (y / 10) % 10 && y % 100 % 10 == y % 10
  {
  }

  // --------------------------------------------------------------- bare keys

  /** Letters, digits, the hyphen and the underscore. */
  predicate IsKeyChar(c: Byte) {
    || B('a') <= c <= B('z') || B('A') <= c <= B('Z') || B('0') <= c <= B('9') || c == B('-') || c == B('_')
  }

  /** A row of such characters, with another one or nothing behind it, is a key. */
  lemma {:induction false} BareKeyIsRead(key: Bytes, rest: Bytes)
    requires key != [] && (forall k :: 0 <= k < |key| ==> IsKeyChar(key[k]))
    requires rest != [] ==> !IsKeyChar(rest[0])
    ensures HeaderText.KeyAt(key + rest) == Just((key, |key|))
  {
    KeyText.BareReadsBack(key, rest);
  }

  /** Without such a character and without a quote there is no key. */
  lemma {:induction false} NoKeyElsewhere(t: Bytes)
    requires t != [] ==> !IsKeyChar(t[0]) && t[0] != B('"') && t[0] != B('\'')
    ensures HeaderText.KeyAt(t) == Nothing
  {
  }

  // ---------------------------------------------------------------- calendar

  /** The days before a year, in the Gregorian calendar continued to both sides. */
  function DaysBefore(y: nat): int {
    365 * y + (y + 3) / 4 - (y + 99) / 100 + (y + 399) / 400
  }

  function DaysOf(y: nat): nat {
    Datetimes.DaysIn(y, 1) + Datetimes.DaysIn(y, 2) + Datetimes.DaysIn(y, 3) + Datetimes.DaysIn(y, 4)
    + Datetimes.DaysIn(y, 5) + Datetimes.DaysIn(y, 6) + Datetimes.DaysIn(y, 7) + Datetimes.DaysIn(y, 8)
    + Datetimes.DaysIn(y, 9) + Datetimes.DaysIn(y, 10) + Datetimes.DaysIn(y, 11) + Datetimes.DaysIn(y, 12)
  }

  /** Every year has the days that the calendar gives it; 400 years have 146097. */
  lemma {:induction false} YearIsGregorian(y: nat)
    ensures DaysOf(y) == DaysBefore(y + 1) - DaysBefore(y)
    ensures DaysBefore(y + 400) == DaysBefore(y) + 146097
  {
    LeapYears(y);
  }

  lemma {:induction false} LeapYears(y: nat)
    ensures (y + 4) / 4 - (y + 3) / 4 == if y % 4 == 0 then 1 else 0
    ensures (y + 100) / 100 - (y + 99) / 100 == if y % 100 == 0 then 1 else 0
    ensures (y + 400) / 400 - (y + 399) / 400 == if y % 400 == 0 then 1 else 0
    ensures y % 400 == 0 ==> y % 100 == 0
    ensures y % 100 == 0 ==> y % 4 == 0
  {
    StepsOf4(y);
    StepsOf100(y);
    StepsOf400(y);
    if y % 400 == 0 {
      FourHundredsAreHundreds(y);
    }
    if y % 100 == 0 {
      HundredsAreFours(y);
    }
  }

  lemma {:induction false} StepsOf4(y: nat)
    ensures (y + 4) / 4 - (y + 3) / 4 == if y % 4 == 0 then 1 else 0
  {
  }

  lemma {:induction false} StepsOf100(y: nat)
    ensures (y + 100) / 100 - (y + 99) / 100 == if y % 100 == 0 then 1 else 0
  {
  }

  lemma {:induction false} HundredsAreFours(y: nat)
    requires y % 100 == 0
    ensures y % 4 == 0
  {
    var q := y / 100;
    assert y == 4 * (25 * q);
  }

  lemma {:induction false} FourHundredsAreHundreds(y: nat)
    requires y % 400 == 0
    ensures y % 100 == 0
  {
    var q := y / 400;
    assert y == 100 * (4 * q);
  }

  lemma {:induction false} StepsOf400(y: nat)
    ensures (y + 400) / 400 - (y + 399) / 400 == if y % 400 == 0 then 1 else 0
  {
  }

  /** The months behind February: five of them have 153 days, spread evenly. */
  lemma {:induction false} MonthsAreSpread(y: nat, m: nat)
    requires 1 <= m <= 12 && m != 2
    ensures var k := if m == 1 then 10 else m - 3;
            Datetimes.DaysIn(y, m) == (153 * (k + 1) + 2) / 5 - (153 * k + 2) / 5
  {
  }
}
