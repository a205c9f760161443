/** String values: how they are scanned, and how they are written so that they
    scan back to the same bytes. */
module Strings {
  import opened Sequences
  import opened Document
  import opened Utf8

  const QUOTE: Byte := 34
  const APOSTROPHE: Byte := 39
  const BACKSLASH: Byte := 92

  /** The bytes of a string and what follows it. */
  datatype Scan = Bad | Done(out: Bytes, rest: Bytes)

  function Prepend(b: Bytes, r: Scan): Scan {
    if r.Done? then Done(b + r.out, r.rest) else Bad
  }

  predicate IsControl(c: Byte) {
    (c < 0x20 && c != 9) || c == 0x7F
  }

  function RunOf(t: Bytes, q: Byte): (n: nat)
    ensures n <= |t| && (forall k :: 0 <= k < n ==> t[k] == q) && (n < |t| ==> t[n] != q)
  {
    if t == [] || t[0] != q then 0 else 1 + RunOf(t[1..], q)
  }

  function Repeat(q: Byte, n: nat): (r: Bytes)
    ensures |r| == n
  {
    seq(n, _ => q)
  }

  // ---------------------------------------------------------------- escapes

  predicate IsHex(c: Byte) {
    48 <= c <= 57 || 65 <= c <= 70 || 97 <= c <= 102
  }

  function HexValue(c: Byte): (v: nat)
    requires IsHex(c)
    ensures v < 16
  {
    if c <= 57 then c - 48 else if c <= 70 then c - 55 else c - 87
  }

  /** The number in the first `n` bytes, if they are hexadecimal digits. */
  function Hex(t: Bytes, n: nat): Maybe<nat> {
    if n == 0 then Just(0)
    else if n > |t| || !IsHex(t[n - 1]) then Nothing
    else
      var before := Hex(t, n - 1);
      if before.Just? then Just(before.value * 16 + HexValue(t[n - 1])) else Nothing
  }

  /** What the escape that `t` starts with stands for, and its length. */
  function EscapeAt(t: Bytes, ml: bool): (r: Maybe<(Bytes, nat)>)
    requires t != [] && t[0] == BACKSLASH
    ensures r.Just? ==> 2 <= r.value.1 <= |t|
  {
    if |t| < 2 then Nothing
    else
      var e := t[1];
      if ml && (e == 32 || e == 9 || e == 10 || e == 13) then
        var q := 1 + BlankRun(t[1..]);
        if q < |t| && (t[q] == 10 || (t[q] == 13 && q + 1 < |t| && t[q + 1] == 10))
          then Just(([], 1 + WhiteRun(t[1..]))) else Nothing
      else if e == 98 then Just(([8], 2))
      else if e == 116 then Just(([9], 2))
      else if e == 110 then Just(([10], 2))
      else if e == 102 then Just(([12], 2))
      else if e == 114 then Just(([13], 2))
      else if e == QUOTE then Just(([QUOTE], 2))
      else if e == BACKSLASH then Just(([BACKSLASH], 2))
      else if e == 101 then Just(([27], 2))
      else if e == 120 then CodePoint(t, 2)
      else if e == 117 then CodePoint(t, 4)
      else if e == 85 then CodePoint(t, 8)
      else Nothing
  }

  function CodePoint(t: Bytes, digits: nat): (r: Maybe<(Bytes, nat)>)
    requires |t| >= 2
    ensures r.Just? ==> r.value.1 == 2 + digits <= |t|
  {
    var cp := Hex(t[2..], digits);
    if cp.Just? && IsScalar(cp.value) && 2 + digits <= |t| then Just((Encode(cp.value), 2 + digits)) else Nothing
  }

  function BlankRun(t: Bytes): (n: nat)
    ensures n <= |t|
  {
    if t != [] && (t[0] == 32 || t[0] == 9) then 1 + BlankRun(t[1..]) else 0
  }

  /** Spaces, tabs and line ends. */
  function WhiteRun(t: Bytes): (n: nat)
    ensures n <= |t|
    ensures t != [] && (t[0] == 32 || t[0] == 9 || t[0] == 10) ==> n > 0
    ensures |t| > 1 && t[0] == 13 && t[1] == 10 ==> n > 0
    decreases |t|
  {
    if t != [] && (t[0] == 32 || t[0] == 9 || t[0] == 10) then 1 + WhiteRun(t[1..])
    else if |t| > 1 && t[0] == 13 && t[1] == 10 then 2 + WhiteRun(t[2..])
    else 0
  }

  // ------------------------------------------------------------------ bodies

  /** One turn of a scan: it fails, ends the string, or goes on; with the bytes
      it adds and how far it moves. */
  datatype Turn = Fail | End(out: Bytes, n: nat) | More(out: Bytes, n: nat)

  function TurnAt(t: Bytes, q: Byte, ml: bool): (r: Turn)
    ensures !r.Fail? ==> 0 < r.n <= |t|
  {
    if t == [] then Fail
    else if t[0] == q then
      if !ml then End([], 1)
      else
        var run := RunOf(t, q);
        if run >= 6 then Fail
        else if run >= 3 then End(Repeat(q, run - 3), run)
        else More(Repeat(q, run), run)
    else if t[0] == BACKSLASH && q == QUOTE then
      var e := EscapeAt(t, ml);
      if e.Just? then More(e.value.0, e.value.1) else Fail
    else if t[0] == 10 then if ml then More([10], 1) else Fail
    else if t[0] == 13 then if ml && |t| > 1 && t[1] == 10 then More([10], 2) else Fail
    else if IsControl(t[0]) then Fail
    else More([t[0]], 1)
  }

  /** The body of a string with quotes `q`, up to the end of the string. */
  function Body(t: Bytes, q: Byte, ml: bool): (r: Scan)
    ensures r.Done? ==> |r.rest| < |t|
    decreases |t|
  {
    match TurnAt(t, q, ml)
    case Fail => Bad
    case End(out, n) => Done(out, t[n..])
    case More(out, n) => Prepend(out, Body(t[n..], q, ml))
  }

  /** A string value: three quotes open a multi-line string, whose first line end
      is dropped. */
  function StringAt(t: Bytes): Scan
    requires t != []
  {
    var q := t[0];
    if IsMultiLine(t) then Body(AfterLineEnd(t[3..]), q, true) else Body(t[1..], q, false)
  }

  predicate IsMultiLine(t: Bytes) {
    |t| >= 3 && t[1] == t[0] && t[2] == t[0]
  }

  function AfterLineEnd(t: Bytes): (r: Bytes)
    ensures |r| <= |t|
  {
    if |t| > 1 && t[0] == 13 && t[1] == 10 then t[2..] else if t != [] && t[0] == 10 then t[1..] else t
  }

  // ---------------------------------------------------------------- the code

  lemma {:induction false} HexFails(t: Bytes, i: nat, n: nat)
    requires i <= n && Hex(t, i).Nothing?
    ensures Hex(t, n).Nothing?
    decreases n
  {
    if i < n {
      HexFails(t, i, n - 1);
    }
  }

  method ReadHex(s: Bytes, p: nat, digits: nat) returns (cp: Maybe<nat>)
    requires p <= |s|
    ensures cp == Hex(s[p..], digits)
  {
    ghost var t := s[p..];
    var v := 0;
    var i := 0;
    while i < digits
      invariant 0 <= i <= digits && 0 <= v && i <= |t| && Hex(t, i) == Just(v)
    {
      if p + i >= |s| || !IsHex(s[p + i]) {
        HexFails(t, i + 1, digits);
        return Nothing;
      }
      v := v * 16 + HexValue(s[p + i]);
      i := i + 1;
    }
    return Just(v);
  }

  method SkipWhite(s: Bytes, from: nat) returns (p: nat)
    requires from <= |s|
    ensures p == from + WhiteRun(s[from..])
  {
    p := from;
    while true
      invariant from <= p <= |s| && p + WhiteRun(s[p..]) == from + WhiteRun(s[from..])
      decreases |s| - p
    {
      if p < |s| && (s[p] == 32 || s[p] == 9 || s[p] == 10) {
        assert s[p..][1..] == s[p + 1..];
        p := p + 1;
      } else if p + 1 < |s| && s[p] == 13 && s[p + 1] == 10 {
        assert s[p..][2..] == s[p + 2..];
        p := p + 2;
      } else {
        return;
      }
    }
  }

  method SkipBlanks(s: Bytes, from: nat) returns (p: nat)
    requires from <= |s|
    ensures p == from + BlankRun(s[from..])
  {
    p := from;
    while p < |s| && (s[p] == 32 || s[p] == 9)
      invariant from <= p <= |s| && p + BlankRun(s[p..]) == from + BlankRun(s[from..])
    {
      assert s[p..][1..] == s[p + 1..];
      p := p + 1;
    }
  }

  /** An escape: what it stands for and how long it is. */
  method ReadEscape(s: Bytes, p: nat, ml: bool) returns (r: Maybe<(Bytes, nat)>)
    requires p < |s| && s[p] == BACKSLASH
    ensures r == EscapeAt(s[p..], ml)
  {
    if p + 1 >= |s| {
      return Nothing;
    }
    var e := s[p + 1];
    ghost var t := s[p..];
    assert t[1..] == s[p + 1..] && t[2..] == s[p + 2..];
    if ml && (e == 32 || e == 9 || e == 10 || e == 13) {
      var q := SkipBlanks(s, p + 1);
      if q >= |s| || (s[q] != 10 && !(s[q] == 13 && q + 1 < |s| && s[q + 1] == 10)) {
        return Nothing;
      }
      var end := SkipWhite(s, p + 1);
      return Just(([], end - p));
    }
    if e == 120 || e == 117 || e == 85 {
      var digits := if e == 120 then 2 else if e == 117 then 4 else 8;
      var cp := ReadHex(s, p + 2, digits);
      HexLength(t[2..], digits);
      if cp.Nothing? || (0xD800 <= cp.value <= 0xDFFF) || cp.value > 0x10FFFF {
        return Nothing;
      }
      return Just((Encode(cp.value), 2 + digits));
    }
    var one: Bytes :=
      if e == 98 then [8] else if e == 116 then [9] else if e == 110 then [10] else if e == 102 then [12]
      else if e == 114 then [13] else if e == QUOTE then [QUOTE] else if e == BACKSLASH then [BACKSLASH]
      else if e == 101 then [27] else [];
    return if one == [] then Nothing else Just((one, 2));
  }

  lemma {:induction false} HexLength(t: Bytes, n: nat)
    ensures Hex(t, n).Just? ==> n <= |t|
  {
  }

  /** The quotes at `p`, counted. */
  method CountQuotes(s: Bytes, p: nat, q: Byte) returns (run: nat)
    requires p <= |s|
    ensures run == RunOf(s[p..], q)
  {
    run := 0;
    while p + run < |s| && s[p + run] == q
      invariant p + run <= |s| && run + RunOf(s[p + run..], q) == RunOf(s[p..], q)
    {
      assert s[p + run..][1..] == s[p + run + 1..];
      run := run + 1;
    }
  }

  /** One turn of the scanners. */
  method ReadTurn(s: Bytes, p: nat, q: Byte, ml: bool) returns (r: Turn)
    requires p <= |s|
    ensures r == TurnAt(s[p..], q, ml)
  {
    if p >= |s| {
      return Fail;
    }
    var c := s[p];
    if c == q {
      if !ml {
        return End([], 1);
      }
      var run := CountQuotes(s, p, q);
      if run >= 6 {
        return Fail;
      }
      return if run >= 3 then End(Repeat(q, run - 3), run) else More(Repeat(q, run), run);
    }
    if c == BACKSLASH && q == QUOTE {
      var e := ReadEscape(s, p, ml);
      return if e.Nothing? then Fail else More(e.value.0, e.value.1);
    }
    if c == 10 {
      return if ml then More([10], 1) else Fail;
    }
    if c == 13 {
      return if ml && p + 1 < |s| && s[p + 1] == 10 then More([10], 2) else Fail;
    }
    return if IsControl(c) then Fail else More([c], 1);
  }

  /** The scanner for both kinds of string; `q` says which, and only the kind
      with double quotes has escapes. */
  method ScanBody(s: Bytes, from: nat, q: Byte, ml: bool) returns (ok: bool, out: Bytes, p: nat)
    requires from <= |s|
    ensures p <= |s| && (if ok then Done(out, s[p..]) else Bad) == Body(s[from..], q, ml)
  {
    hide TurnAt;
    ok, out, p := false, [], from;
    PrependNothing(Body(s[from..], q, ml));
    while true
      invariant from <= p <= |s| && Body(s[from..], q, ml) == Prepend(out, Body(s[p..], q, ml))
      decreases |s| - p
    {
      var turn := ReadTurn(s, p, q, ml);
      if turn.Fail? {
        return;
      }
      assert s[p..][turn.n..] == s[p + turn.n..];
      if turn.End? {
        return true, out + turn.out, p + turn.n;
      }
      PrependTwice(out, turn.out, Body(s[p + turn.n..], q, ml));
      out := out + turn.out;
      p := p + turn.n;
    }
  }

  lemma {:induction false} PrependTwice(a: Bytes, b: Bytes, r: Scan)
    ensures Prepend(a, Prepend(b, r)) == Prepend(a + b, r)
  {
    if r.Done? {
      assert a + (b + r.out) == a + b + r.out;
    }
  }

  /** A body without escapes and controls is its own text. */
  lemma {:induction false} PlainBody(t: Bytes, q: Byte, n: nat)
    requires (q == QUOTE || q == APOSTROPHE) && n < |t| && t[n] == q
    requires forall k :: 0 <= k < n ==> t[k] != q && !IsControl(t[k]) && (q == QUOTE ==> t[k] != BACKSLASH)
    ensures Body(t, q, false) == Done(t[..n], t[n + 1..])
    decreases n
  {
    if n > 0 {
      PlainBody(t[1..], q, n - 1);
      assert t[1..][..n - 1] == t[1..n] && t[1..][n..] == t[n + 1..];
      assert t[..n] == [t[0]] + t[1..n];
    }
  }

  const LONG_BODY: nat := 32

  /** The fast path: finds the closing quote first and then looks for anything
      that needs the slow path, or does both in one pass when little text is
      left.  When it answers, the slow path gives the same. */
  method TryPlainBody(s: Bytes, p: nat, q: Byte) returns (len: Maybe<nat>)
    requires p <= |s| && (q == QUOTE || q == APOSTROPHE)
    ensures len.Just? ==>
              p + len.value < |s| && Body(s[p..], q, false) == Done(s[p..p + len.value], s[p + len.value + 1..])
    ensures len.Nothing? <==> forall n :: p <= n < |s| && s[n] == q ==>
              exists k :: p <= k < n && (s[k] == q || NeedsSlow(s[k], q, |s| - p >= LONG_BODY))
  {
    hide Body;
    if |s| - p >= LONG_BODY {
      var off := p;
      while off < |s| && s[off] != q
        invariant p <= off <= |s| && forall k :: p <= k < off ==> s[k] != q
      {
        off := off + 1;
      }
      if off == |s| {
        return Nothing;
      }
      var bad := p;
      while bad < off && !NeedsSlow(s[bad], q, true)
        invariant p <= bad <= off && forall k :: p <= k < bad ==> !NeedsSlow(s[k], q, true)
      {
        bad := bad + 1;
      }
      if bad < off {
        return Nothing;
      }
      PlainAt(s, p, q, off);
      return Just(off - p);
    }
    var i := p;
    while i < |s|
      invariant p <= i <= |s| && forall k :: p <= k < i ==> s[k] != q && !NeedsSlow(s[k], q, false)
    {
      if s[i] == q {
        PlainAt(s, p, q, i);
        return Just(i - p);
      }
      if NeedsSlow(s[i], q, false) {
        return Nothing;
      }
      i := i + 1;
    }
    return Nothing;
  }

  /** What makes the fast path give up: in a short rest of the text a backslash
      does even where it is no escape. */
  predicate NeedsSlow(c: Byte, q: Byte, long: bool) {
    IsControl(c) || (c == BACKSLASH && (q == QUOTE || !long))
  }

  lemma {:induction false} PlainAt(s: Bytes, p: nat, q: Byte, off: nat)
    requires p <= off < |s| && s[off] == q && (q == QUOTE || q == APOSTROPHE)
    requires forall k :: p <= k < off ==> s[k] != q && !IsControl(s[k]) && (q == QUOTE ==> s[k] != BACKSLASH)
    ensures Body(s[p..], q, false) == Done(s[p..off], s[off + 1..])
  {
    var t := s[p..];
    PlainBody(t, q, off - p);
    assert t[..off - p] == s[p..off] && t[off - p + 1..] == s[off + 1..];
  }

  /** A whole string value: by the fast path if that answers, else by a scan. */
  method ParseString(s: Bytes, from: nat) returns (ok: bool, out: Bytes, p: nat)
    requires from < |s| && (s[from] == QUOTE || s[from] == APOSTROPHE)
    ensures p <= |s| && (if ok then Done(out, s[p..]) else Bad) == StringAt(s[from..])
  {
    hide Body, NeedsSlow;
    var q := s[from];
    ghost var t := s[from..];
    var ml := |s| - from >= 3 && s[from + 1] == q && s[from + 2] == q;
    p := from + if ml then 3 else 1;
    assert t[1..] == s[from + 1..];
    if ml {
      assert t[3..] == s[from + 3..];
      ghost var u := s[p..];
      if p + 1 < |s| && s[p] == 13 && s[p + 1] == 10 {
        assert u[2..] == s[p + 2..];
        p := p + 2;
      } else if p < |s| && s[p] == 10 {
        assert u[1..] == s[p + 1..];
        p := p + 1;
      }
    } else {
      var plain := TryPlainBody(s, p, q);
      if plain.Just? {
        return true, s[p..p + plain.value], p + plain.value + 1;
      }
    }
    ok, out, p := ScanBody(s, p, q, ml);
  }

  // ------------------------------------------------------------------ writing

  function HexDigit(v: nat): (c: Byte)
    requires v < 16
    ensures IsHex(c) && HexValue(c) == v
  {
    if v < 10 then 48 + v else 55 + v
  }

  predicate NeedsEscape(c: Byte) {
    c == QUOTE || c == BACKSLASH || c < 0x20 || c == 0x7F
  }

  /** How a byte is written between double quotes. */
  function Escaped(c: Byte): Bytes {
    if c == QUOTE then [BACKSLASH, QUOTE]
    else if c == BACKSLASH then [BACKSLASH, BACKSLASH]
    else if c == 8 then [BACKSLASH, 98]
    else if c == 9 then [BACKSLASH, 116]
    else if c == 10 then [BACKSLASH, 110]
    else if c == 12 then [BACKSLASH, 102]
    else if c == 13 then [BACKSLASH, 114]
    else if NeedsEscape(c) then [BACKSLASH, 117, 48, 48, HexDigit(c / 16), HexDigit(c % 16)]
    else [c]
  }

  function EscapedAll(s: Bytes): Bytes {
    if s == [] then [] else Escaped(s[0]) + EscapedAll(s[1..])
  }

  predicate CanBeLiteral(s: Bytes) {
    forall k :: 0 <= k < |s| ==> s[k] != APOSTROPHE && !IsControl(s[k])
  }

  /** The text of a string value. */
  function StringText(s: Bytes): Bytes {
    if CanBeLiteral(s) then [APOSTROPHE] + s + [APOSTROPHE] else [QUOTE] + EscapedAll(s) + [QUOTE]
  }

  lemma {:induction false} EscapedConcat(a: Bytes, b: Bytes)
    ensures EscapedAll(a + b) == EscapedAll(a) + EscapedAll(b)
    decreases |a|
  {
    hide Escaped;
    if a == [] {
      assert a + b == b;
    } else {
      EscapedConcat(a[1..], b);
      assert (a + b)[1..] == a[1..] + b;
      assert Escaped(a[0]) + (EscapedAll(a[1..]) + EscapedAll(b)) == Escaped(a[0]) + EscapedAll(a[1..]) + EscapedAll(b);
    }
  }

  lemma {:induction false} EscapedPlain(a: Bytes)
    requires forall k :: 0 <= k < |a| ==> !NeedsEscape(a[k])
    ensures EscapedAll(a) == a
    decreases |a|
  {
    if a != [] {
      EscapedPlain(a[1..]);
      assert a == [a[0]] + a[1..];
    }
  }

  /** A clean run behind what is written is written as it is. */
  lemma {:induction false} RunWritten(s: Bytes, start: nat, i: nat)
    requires start <= i <= |s| && forall k :: start <= k < i ==> !NeedsEscape(s[k])
    ensures EscapedAll(s[..i]) == EscapedAll(s[..start]) + s[start..i]
  {
    EscapedPlain(s[start..i]);
    EscapedConcat(s[..start], s[start..i]);
    assert s[..i] == s[..start] + s[start..i];
  }

  lemma {:induction false} ByteWritten(s: Bytes, i: nat)
    requires i < |s|
    ensures EscapedAll(s[..i + 1]) == EscapedAll(s[..i]) + Escaped(s[i])
  {
    EscapedConcat(s[..i], [s[i]]);
    assert s[..i + 1] == s[..i] + [s[i]];
    assert [s[i]][1..] == [];
    assert EscapedAll([s[i]]) == Escaped(s[i]) + [] == Escaped(s[i]);
  }

  /** Writes between double quotes: clean runs as they are, other bytes as
      escapes. */
  method EmitBasicBytes(b: Bytes, s: Bytes) returns (out: Bytes)
    ensures out == b + [QUOTE] + EscapedAll(s) + [QUOTE]
  {
    hide Escaped, EscapedAll;
    out := b + [QUOTE];
    ghost var head := out;
    EscapedPlain([]);
    assert s[..0] == [] && head + [] == head;
    var i := 0;
    while i < |s|
      invariant 0 <= i <= |s| && out == head + EscapedAll(s[..i])
    {
      var start := i;
      while i < |s| && !NeedsEscape(s[i])
        invariant start <= i <= |s| && forall k :: start <= k < i ==> !NeedsEscape(s[k])
      {
        i := i + 1;
      }
      RunWritten(s, start, i);
      Assoc(head, EscapedAll(s[..start]), s[start..i]);
      out := out + s[start..i];
      if i == |s| {
        break;
      }
      ByteWritten(s, i);
      Assoc(head, EscapedAll(s[..i]), Escaped(s[i]));
      out := out + Escaped(s[i]);
      i := i + 1;
    }
    assert s[..i] == s;
    out := out + [QUOTE];
  }

  method EmitStringValue(b: Bytes, s: Bytes) returns (out: Bytes)
    ensures out == b + StringText(s)
  {
    var literal := true;
    var i := 0;
    while i < |s| && literal
      invariant 0 <= i <= |s| && literal == forall k :: 0 <= k < i ==> s[k] != APOSTROPHE && !IsControl(s[k])
    {
      if s[i] == APOSTROPHE || IsControl(s[i]) {
        literal := false;
      }
      i := i + 1;
    }
    hide EscapedAll, IsControl;
    if literal {
      out := b + [APOSTROPHE] + s + [APOSTROPHE];
      Assoc(b + [APOSTROPHE], s, [APOSTROPHE]);
      Assoc(b, [APOSTROPHE], s + [APOSTROPHE]);
      Assoc([APOSTROPHE], s, [APOSTROPHE]);
      return;
    }
    out := EmitBasicBytes(b, s);
    Assoc(b + [QUOTE], EscapedAll(s), [QUOTE]);
    Assoc(b, [QUOTE], EscapedAll(s) + [QUOTE]);
    Assoc([QUOTE], EscapedAll(s), [QUOTE]);
  }

  // --------------------------------------------------------------- round trip

  /** Every escape stands for its byte. */
  lemma {:induction false} EscapeStandsForByte(c: Byte, t: Bytes)
    requires NeedsEscape(c)
    ensures var u := Escaped(c) + t;
            u[0] == BACKSLASH && EscapeAt(u, false) == Just(([c], |Escaped(c)|))
  {
    var e := Escaped(c);
    var u := e + t;
    if |e| == 6 {
      var h := u[2..];
      assert h[0] == 48 && h[1] == 48 && h[2] == HexDigit(c / 16) && h[3] == HexDigit(c % 16);
      assert Hex(h, 1) == Just(0) && Hex(h, 2) == Just(0) && Hex(h, 3) == Just(c / 16);
      assert Hex(h, 4) == Just(c as nat);
    }
  }

  /** A written byte is read in one turn. */
  lemma {:induction false} WrittenTurn(c: Byte, t: Bytes)
    ensures TurnAt(Escaped(c) + t, QUOTE, false) == More([c], |Escaped(c)|)
    ensures (Escaped(c) + t)[|Escaped(c)|..] == t
  {
    if NeedsEscape(c) {
      EscapeStandsForByte(c, t);
    }
  }

  lemma {:induction false} EscapedScansBack(s: Bytes, rest: Bytes)
    ensures Body(EscapedAll(s) + [QUOTE] + rest, QUOTE, false) == Done(s, rest)
    decreases |s|
  {
    if s == [] {
      assert [] + [QUOTE] + rest == [QUOTE] + rest && ([QUOTE] + rest)[1..] == rest;
    } else {
      var c, more := s[0], EscapedAll(s[1..]) + [QUOTE] + rest;
      assert EscapedAll(s) + [QUOTE] + rest == Escaped(c) + more;
      EscapedScansBack(s[1..], rest);
      WrittenTurn(c, more);
      hide TurnAt, Escaped, EscapedAll;
      assert Body(Escaped(c) + more, QUOTE, false) == Prepend([c], Body(more, QUOTE, false));
      hide Body;
      assert [c] + s[1..] == s;
    }
  }

  lemma {:induction false} LiteralScansBack(s: Bytes, rest: Bytes)
    requires CanBeLiteral(s)
    ensures Body(s + [APOSTROPHE] + rest, APOSTROPHE, false) == Done(s, rest)
  {
    var t := s + [APOSTROPHE] + rest;
    PlainBody(t, APOSTROPHE, |s|);
    assert t[..|s|] == s && t[|s| + 1..] == rest;
  }

  /** A written string is scanned back to its bytes, and the cursor stands just
      behind it - exactly unless it is the empty string and a third apostrophe
      follows, which newlines, commas and closing brackets are not. */
  lemma {:induction false} StringRoundTrip(s: Bytes, rest: Bytes)
    ensures StringAt(StringText(s) + rest) == Done(s, rest) <==> !(s == [] && rest != [] && rest[0] == APOSTROPHE)
  {
    if CanBeLiteral(s) {
      LiteralRoundTrip(s, rest);
    } else {
      EscapedRoundTrip(s, rest);
    }
  }

  /** The text of the empty string, and an apostrophe. */
  lemma {:induction false} EmptyStringRunsOn()
    ensures StringText([]) == [APOSTROPHE, APOSTROPHE]
    ensures StringAt(StringText([]) + [APOSTROPHE]) != Done([], [APOSTROPHE])
  {
    StringRoundTrip([], [APOSTROPHE]);
  }

  lemma {:induction false} LiteralRoundTrip(s: Bytes, rest: Bytes)
    requires CanBeLiteral(s)
    ensures StringAt([APOSTROPHE] + s + [APOSTROPHE] + rest) == Done(s, rest)
       <==> !(s == [] && rest != [] && rest[0] == APOSTROPHE)
  {
    var t := [APOSTROPHE] + s + [APOSTROPHE] + rest;
    assert t[1..] == s + [APOSTROPHE] + rest;
    LiteralScansBack(s, rest);
    hide Body;
    if s != [] {
      assert t[1] == s[0];
    } else if rest != [] {
      assert t[1] == APOSTROPHE && t[2] == rest[0];
      if rest[0] == APOSTROPHE {
        assert |t[3..]| == |rest| - 1;
      }
    }
  }

  lemma {:induction false} EscapedRoundTrip(s: Bytes, rest: Bytes)
    requires !CanBeLiteral(s) && s != []
    ensures StringAt([QUOTE] + EscapedAll(s) + [QUOTE] + rest) == Done(s, rest)
  {
    EscapedStarts(s);
    hide CanBeLiteral, EscapedAll;
    var t := [QUOTE] + EscapedAll(s) + [QUOTE] + rest;
    assert t[1..] == EscapedAll(s) + [QUOTE] + rest;
    EscapedScansBack(s, rest);
    hide Body;
    assert t[1] == EscapedAll(s)[0];
  }

  lemma {:induction false} EscapedStarts(s: Bytes)
    requires s != []
    ensures EscapedAll(s) != [] && EscapedAll(s)[0] != QUOTE
  {
    assert EscapedAll(s)[0] == Escaped(s[0])[0];
  }

  // ------------------------------------------------------------------- UTF-8

  lemma {:induction false} AsciiRuns(t: Bytes, n: nat)
    requires WellFormed(t) && n <= |t| && forall k :: 0 <= k < n ==> t[k] < 0x80
    ensures WellFormed(t[n..])
    decreases n
  {
    if n > 0 {
      AsciiRuns(t[1..], n - 1);
      assert t[1..][n - 1..] == t[n..];
    } else {
      assert t[0..] == t;
    }
  }

  lemma {:induction false} PrependNothing(r: Scan)
    ensures Prepend([], r) == r
  {
    if r.Done? {
      assert [] + r.out == r.out;
    }
  }

  lemma {:induction false} HighByteTurn(t: Bytes, q: Byte, ml: bool)
    requires t != [] && t[0] >= 0x80 && q < 0x80
    ensures Body(t, q, ml) == Prepend([t[0]], Body(t[1..], q, ml))
  {
  }

  /** Bytes above ASCII are copied as they stand. */
  lemma {:induction false} CopiesHighBytes(t: Bytes, n: nat, q: Byte, ml: bool)
    requires n <= |t| && q < 0x80 && forall k :: 0 <= k < n ==> t[k] >= 0x80
    ensures Body(t, q, ml) == Prepend(t[..n], Body(t[n..], q, ml))
    decreases n
  {
    hide Body;
    if n == 0 {
      assert t[0..] == t;
      PrependNothing(Body(t, q, ml));
    } else {
      HighByteTurn(t, q, ml);
      CopiesHighBytes(t[1..], n - 1, q, ml);
      assert t[1..][..n - 1] == t[1..n] && t[1..][n - 1..] == t[n..];
      PrependTwice([t[0]], t[1..n], Body(t[n..], q, ml));
      assert [t[0]] + t[1..n] == t[..n];
    }
  }

  lemma {:induction false} EscapeIsAscii(t: Bytes, ml: bool)
    requires t != [] && t[0] == BACKSLASH && EscapeAt(t, ml).Just?
    ensures var e := EscapeAt(t, ml).value;
            WellFormed(e.0) && forall k :: 0 <= k < e.1 ==> t[k] < 0x80
  {
    var e := EscapeAt(t, ml).value;
    var c := t[1];
    if ml && (c == 32 || c == 9 || c == 10 || c == 13) {
      WhiteIsAscii(t[1..]);
      assert forall k :: 1 <= k < e.1 ==> t[k] == t[1..][k - 1];
    } else if c == 120 || c == 117 || c == 85 {
      var digits := if c == 120 then 2 else if c == 117 then 4 else 8;
      HexIsAscii(t[2..], digits);
      EncodeIsChar(Hex(t[2..], digits).value);
      assert forall k :: 2 <= k < e.1 ==> t[k] == t[2..][k - 2];
    } else {
      OneChar(e.0);
    }
  }

  lemma {:induction false} WhiteIsAscii(t: Bytes)
    ensures forall k :: 0 <= k < WhiteRun(t) ==> t[k] < 0x80
    decreases |t|
  {
    if t != [] && (t[0] == 32 || t[0] == 9 || t[0] == 10) {
      WhiteIsAscii(t[1..]);
      assert forall k :: 1 <= k < WhiteRun(t) ==> t[k] == t[1..][k - 1];
    } else if |t| > 1 && t[0] == 13 && t[1] == 10 {
      WhiteIsAscii(t[2..]);
      assert forall k :: 2 <= k < WhiteRun(t) ==> t[k] == t[2..][k - 2];
    }
  }

  lemma {:induction false} HexIsAscii(t: Bytes, n: nat)
    requires Hex(t, n).Just?
    ensures n <= |t| && forall k :: 0 <= k < n ==> t[k] < 0x80
    decreases n
  {
    if n > 0 {
      HexIsAscii(t, n - 1);
    }
  }

  /** A turn that starts with an ASCII byte reads ASCII and adds characters. */
  lemma {:induction false} TurnIsAscii(t: Bytes, q: Byte, ml: bool)
    requires t != [] && t[0] < 0x80 && (q == QUOTE || q == APOSTROPHE) && !TurnAt(t, q, ml).Fail?
    ensures var turn := TurnAt(t, q, ml);
            WellFormed(turn.out) && forall k :: 0 <= k < turn.n ==> t[k] < 0x80
  {
    var turn := TurnAt(t, q, ml);
    if t[0] == q {
      AsciiIsWellFormed(turn.out);
    } else if t[0] == BACKSLASH && q == QUOTE {
      EscapeIsAscii(t, ml);
    } else {
      OneChar(turn.out);
    }
  }

  /** What a scan takes of well-formed text is well-formed, and so is what it
      leaves. */
  lemma {:induction false} BodyIsWellFormed(t: Bytes, q: Byte, ml: bool)
    requires WellFormed(t) && (q == QUOTE || q == APOSTROPHE) && Body(t, q, ml).Done?
    ensures WellFormed(Body(t, q, ml).out) && WellFormed(Body(t, q, ml).rest)
    decreases |t|
  {
    assert t != [];
    if t[0] >= 0x80 {
      var n := CharLength(t);
      HighChar(t);
      CopiesHighBytes(t, n, q, ml);
      BodyIsWellFormed(t[n..], q, ml);
      WellFormedConcat(t[..n], Body(t[n..], q, ml).out);
    } else {
      TurnIsAscii(t, q, ml);
      hide TurnAt, WellFormed;
      var turn := TurnAt(t, q, ml);
      AsciiRuns(t, turn.n);
      if turn.More? {
        BodyIsWellFormed(t[turn.n..], q, ml);
        WellFormedConcat(turn.out, Body(t[turn.n..], q, ml).out);
      }
    }
  }

  /** The first character, when it is not ASCII. */
  lemma {:induction false} HighChar(t: Bytes)
    requires t != [] && t[0] >= 0x80 && CharLength(t) > 0
    ensures WellFormed(t[..CharLength(t)]) && forall k :: 0 <= k < CharLength(t) ==> t[k] >= 0x80
  {
    CharLengthOfPrefix(t, 0, CharLength(t));
    assert t[0..CharLength(t)] == t[..CharLength(t)] && t[0..] == t;
    OneChar(t[..CharLength(t)]);
  }

  /** Every string decoded from a checked buffer is well-formed. */
  lemma {:induction false} DecodedIsWellFormed(t: Bytes)
    requires t != [] && WellFormed(t) && (t[0] == QUOTE || t[0] == APOSTROPHE) && StringAt(t).Done?
    ensures WellFormed(StringAt(t).out) && WellFormed(StringAt(t).rest)
  {
    if IsMultiLine(t) {
      AsciiRuns(t, 3);
      var u := t[3..];
      AsciiRuns(u, |u| - |AfterLineEnd(u)|);
      BodyIsWellFormed(AfterLineEnd(u), t[0], true);
    } else {
      AsciiRuns(t, 1);
      BodyIsWellFormed(t[1..], t[0], false);
    }
  }
}
