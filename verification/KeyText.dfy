/** How keys, dotted paths and headers are written, and that they are read back as
    they were - but for keys with the delete character, which is written raw. */
module KeyText {
  import opened Sequences
  import opened Document
  import opened Utf8
  import opened Strings
  import opened HeaderText

  const DELETE: Byte := 0x7F

  predicate CanBeBare(key: Bytes) {
    key != [] && forall k :: 0 <= k < |key| ==> IsBare(key[k])
  }

  /** How a byte of a key is written between double quotes. */
  function KeyEscaped(c: Byte): Bytes {
    if c == QUOTE || c == BACKSLASH then [BACKSLASH, c]
    else if c < 0x20 then [BACKSLASH, 117, 48, 48, HexDigit(c / 16), HexDigit(c % 16)]
    else [c]
  }

  function KeyEscapedAll(key: Bytes): Bytes {
    if key == [] then [] else KeyEscaped(key[0]) + KeyEscapedAll(key[1..])
  }

  /** The text of a key: bare, literal, or escaped. */
  function TextOfKey(key: Bytes): (t: Bytes)
    ensures t != []
  {
    if CanBeBare(key) then key
    else if CanBeLiteral(key) then [APOSTROPHE] + key + [APOSTROPHE]
    else [QUOTE] + KeyEscapedAll(key) + [QUOTE]
  }

  // ------------------------------------------------------------------ writing

  lemma {:induction false} KeyEscapedConcat(a: Bytes, b: Bytes)
    ensures KeyEscapedAll(a + b) == KeyEscapedAll(a) + KeyEscapedAll(b)
    decreases |a|
  {
    hide KeyEscaped;
    if a == [] {
      assert a + b == b;
    } else {
      Concat(a, b);
      KeyEscapedConcat(a[1..], b);
      Assoc(KeyEscaped(a[0]), KeyEscapedAll(a[1..]), KeyEscapedAll(b));
    }
  }

  lemma {:induction false} KeyByteWritten(key: Bytes, i: nat)
    requires i < |key|
    ensures KeyEscapedAll(key[..i + 1]) == KeyEscapedAll(key[..i]) + KeyEscaped(key[i])
  {
    KeyEscapedConcat(key[..i], [key[i]]);
    assert key[..i + 1] == key[..i] + [key[i]];
    assert [key[i]][1..] == [];
    assert KeyEscapedAll([key[i]]) == KeyEscaped(key[i]) + [] == KeyEscaped(key[i]);
  }

  /** Writes a key into a buffer. */
  method WriteKey(dst: Bytes, key: Bytes) returns (out: Bytes)
    ensures out == dst + TextOfKey(key)
  {
    var bare := |key| > 0;
    var i := 0;
    while i < |key| && bare
      invariant 0 <= i <= |key| && bare == (|key| > 0 && forall k :: 0 <= k < i ==> IsBare(key[k]))
    {
      bare := IsBare(key[i]);
      i := i + 1;
    }
    if bare {
      return dst + key;
    }
    assert !CanBeBare(key);
    var literal := true;
    i := 0;
    while i < |key| && literal
      invariant 0 <= i <= |key|
      invariant literal == forall k :: 0 <= k < i ==> key[k] != APOSTROPHE && !IsControl(key[k])
    {
      literal := key[i] != APOSTROPHE && !IsControl(key[i]);
      i := i + 1;
    }
    if literal {
      Assoc(dst, [APOSTROPHE] + key, [APOSTROPHE]);
      Assoc(dst, [APOSTROPHE], key);
      return dst + [APOSTROPHE] + key + [APOSTROPHE];
    }
    assert !CanBeLiteral(key);
    out := WriteQuoted(dst, key);
  }

  method WriteQuoted(dst: Bytes, key: Bytes) returns (out: Bytes)
    ensures out == dst + ([QUOTE] + KeyEscapedAll(key) + [QUOTE])
  {
    hide KeyEscapedAll, KeyEscaped;
    out := dst + [QUOTE];
    ghost var head := out;
    NothingEscaped();
    assert key[..0] == [] && head + [] == head;
    var i := 0;
    while i < |key|
      invariant 0 <= i <= |key| && out == head + KeyEscapedAll(key[..i])
    {
      KeyByteWritten(key, i);
      Assoc(head, KeyEscapedAll(key[..i]), KeyEscaped(key[i]));
      out := out + KeyEscaped(key[i]);
      i := i + 1;
    }
    assert key[..i] == key;
    Assoc(dst, [QUOTE] + KeyEscapedAll(key), [QUOTE]);
    Assoc(dst, [QUOTE], KeyEscapedAll(key));
    out := out + [QUOTE];
  }

  lemma {:induction false} NothingEscaped()
    ensures KeyEscapedAll([]) == []
  {
  }

  // -------------------------------------------------------------- reading back

  lemma {:induction false} KeyTurn(c: Byte, t: Bytes)
    ensures TurnAt(KeyEscaped(c) + t, QUOTE, false) ==
            if c == DELETE then Fail else More([c], |KeyEscaped(c)|)
    ensures (KeyEscaped(c) + t)[|KeyEscaped(c)|..] == t
  {
    var u := KeyEscaped(c) + t;
    if c == QUOTE || c == BACKSLASH {
      assert u[0] == BACKSLASH && u[1] == c;
    } else if c < 0x20 {
      HexEscapeIsByte(c, t);
    } else {
      assert u[0] == c;
    }
  }

  lemma {:induction false} HexEscapeIsByte(c: Byte, t: Bytes)
    requires c < 0x20
    ensures var u := [BACKSLASH, 117, 48, 48, HexDigit(c / 16), HexDigit(c % 16)] + t;
            EscapeAt(u, false) == Just(([c], 6))
  {
    var u := [BACKSLASH, 117, 48, 48, HexDigit(c / 16), HexDigit(c % 16)] + t;
    var h := u[2..];
    assert h[0] == 48 && h[1] == 48 && h[2] == HexDigit(c / 16) && h[3] == HexDigit(c % 16);
    assert Hex(h, 1) == Just(0) && Hex(h, 2) == Just(0) && Hex(h, 3) == Just(c / 16);
    assert Hex(h, 4) == Just(c as nat);
  }

  /** Between double quotes a key is scanned back, or not at all if it has the
      delete character. */
  lemma {:induction false} QuotedScansBack(key: Bytes, rest: Bytes)
    ensures Body(KeyEscapedAll(key) + [QUOTE] + rest, QUOTE, false) ==
            if DELETE in key then Bad else Done(key, rest)
    decreases |key|
  {
    if key == [] {
      assert [] + [QUOTE] + rest == [QUOTE] + rest && ([QUOTE] + rest)[1..] == rest;
    } else {
      var c, more := key[0], KeyEscapedAll(key[1..]) + [QUOTE] + rest;
      assert KeyEscapedAll(key) + [QUOTE] + rest == KeyEscaped(c) + more;
      QuotedScansBack(key[1..], rest);
      KeyTurn(c, more);
      hide TurnAt, KeyEscaped, KeyEscapedAll;
      assert Body(KeyEscaped(c) + more, QUOTE, false) ==
             if c == DELETE then Bad else Prepend([c], Body(more, QUOTE, false));
      hide Body;
      assert [c] + key[1..] == key;
      assert DELETE in key <==> c == DELETE || DELETE in key[1..];
    }
  }

  lemma {:induction false} BareReadsBack(key: Bytes, rest: Bytes)
    requires CanBeBare(key) && (rest != [] ==> !IsBare(rest[0]))
    ensures KeyAt(key + rest) == Just((key, |key|)) && DELETE !in key
  {
    BareRunOf(key, rest);
    assert (key + rest)[0] == key[0] && (key + rest)[..|key|] == key;
  }

  lemma {:induction false} BareRunOf(key: Bytes, rest: Bytes)
    requires (forall k :: 0 <= k < |key| ==> IsBare(key[k])) && (rest != [] ==> !IsBare(rest[0]))
    ensures BareRun(key + rest) == |key|
    decreases |key|
  {
    if key == [] {
      assert key + rest == rest;
    } else {
      Concat(key, rest);
      BareRunOf(key[1..], rest);
    }
  }

  lemma {:induction false} QuotedKeyAt(q: Byte, body: Bytes, rest: Bytes, r: Scan)
    requires IsQuote(q) && Body(body + [q] + rest, q, false) == r && (r.Done? ==> r.rest == rest)
    ensures KeyAt([q] + body + [q] + rest) == if r.Done? then Just((r.out, |body| + 2)) else Nothing
  {
    hide Body;
    var t := [q] + body + [q] + rest;
    assert t[0] == q && t[1..] == body + [q] + rest;
    assert |t| - |rest| == |body| + 2;
  }

  lemma {:induction false} LiteralIsClean(key: Bytes)
    requires CanBeLiteral(key)
    ensures DELETE !in key
  {
  }

  /** A written key is read back, the cursor behind it, if and only if it is without
      the delete character. */
  lemma {:induction false} KeyRoundTripIff(key: Bytes, rest: Bytes)
    requires rest != [] ==> !IsBare(rest[0])
    ensures KeyAt(TextOfKey(key) + rest) == Just((key, |TextOfKey(key)|)) <==> DELETE !in key
  {
    hide Body, KeyAt, BareRun, KeyEscapedAll, CanBeBare, CanBeLiteral;
    if CanBeBare(key) {
      BareReadsBack(key, rest);
    } else if CanBeLiteral(key) {
      LiteralScansBack(key, rest);
      QuotedKeyAt(APOSTROPHE, key, rest, Done(key, rest));
      LiteralIsClean(key);
    } else {
      QuotedScansBack(key, rest);
      QuotedKeyAt(QUOTE, KeyEscapedAll(key), rest, if DELETE in key then Bad else Done(key, rest));
    }
  }

  // ---------------------------------------------------------- paths and headers

  /** The keys with dots between them. */
  function PathText(path: seq<Bytes>): Bytes {
    if path == [] then []
    else TextOfKey(path[0]) + if |path| == 1 then [] else [B('.')] + PathText(path[1..])
  }

  ghost predicate Clean(path: seq<Bytes>) {
    forall i :: 0 <= i < |path| ==> DELETE !in path[i]
  }

  /** Nothing that could go on a path stands there. */
  predicate EndsPath(rest: Bytes) {
    rest != [] ==> !IsBare(rest[0]) && rest[0] != DOT && rest[0] != 32 && rest[0] != 9
  }

  lemma {:induction false} TextStarts(key: Bytes)
    ensures IsBare(TextOfKey(key)[0]) || IsQuote(TextOfKey(key)[0])
  {
    assert !CanBeBare(key) && CanBeLiteral(key) ==> ([APOSTROPHE] + key + [APOSTROPHE])[0] == APOSTROPHE;
    assert ([QUOTE] + KeyEscapedAll(key) + [QUOTE])[0] == QUOTE;
  }

  lemma {:induction false} MorePath(path: seq<Bytes>, rest: Bytes)
    requires |path| > 1
    ensures PathText(path) + rest == TextOfKey(path[0]) + ([DOT] + (PathText(path[1..]) + rest))
    ensures |PathText(path)| == |TextOfKey(path[0])| + 1 + |PathText(path[1..])|
  {
    hide TextOfKey;
    Assoc(TextOfKey(path[0]), [DOT] + PathText(path[1..]), rest);
    Assoc([DOT], PathText(path[1..]), rest);
  }

  lemma {:induction false} OnePath(key: Bytes)
    ensures PathText([key]) == TextOfKey(key)
  {
    assert TextOfKey(key) + [] == TextOfKey(key);
  }

  /** A written path is read back part by part. */
  lemma {:induction false} PathRoundTrip(path: seq<Bytes>, rest: Bytes, before: nat, max: nat)
    requires path != [] && Clean(path) && before + |path| <= max && EndsPath(rest)
    ensures PathAt(PathText(path) + rest, before, max) == Parts(path, |PathText(path)|)
    decreases |path|
  {
    hide TextOfKey, KeyAt, PathAt, PathText;
    var key := path[0];
    TextStarts(key);
    if |path| == 1 {
      assert [key] == path;
      OnePath(key);
      KeyRoundTripIff(key, rest);
      LastPartAt(TextOfKey(key), key, rest, before, max);
    } else {
      var more := PathText(path[1..]) + rest;
      KeyRoundTripIff(key, [DOT] + more);
      PathRoundTrip(path[1..], rest, before + 1, max);
      MorePath(path, rest);
      PartAt(TextOfKey(key), key, more, before, max);
      assert [key] + path[1..] == path;
    }
  }

  /** The last part of a path, followed by what ends it. */
  lemma {:induction false} LastPartAt(text: Bytes, key: Bytes, rest: Bytes, before: nat, max: nat)
    requires text != [] && (IsBare(text[0]) || IsQuote(text[0])) && EndsPath(rest) && before + 1 <= max
    requires KeyAt(text + rest) == Just((key, |text|))
    ensures PathAt(text + rest, before, max) == Parts([key], |text|)
  {
    hide KeyAt;
    var t := text + rest;
    assert t[0] == text[0] && t[0..] == t && t[|text|..] == rest;
    assert BlankRun(t) == 0 && BlankRun(rest) == 0;
  }

  lemma {:induction false} NoBlank(t: Bytes)
    requires t != [] ==> t[0] != 32 && t[0] != 9
    ensures BlankRun(t) == 0
  {
  }

  lemma {:induction false} OneBlank(t: Bytes)
    requires t != [] && t[0] == 32 && BlankRun(t[1..]) == 0
    ensures BlankRun(t) == 1
  {
  }

  /** A part with a dot and more behind it. */
  lemma {:induction false} PartAt(text: Bytes, key: Bytes, more: Bytes, before: nat, max: nat)
    requires text != [] && (IsBare(text[0]) || IsQuote(text[0])) && before + 1 <= max
    requires KeyAt(text + ([DOT] + more)) == Just((key, |text|))
    ensures PathAt(text + ([DOT] + more), before, max) == Behind([key], |text| + 1, PathAt(more, before + 1, max))
  {
    hide KeyAt, BlankRun;
    var t := text + ([DOT] + more);
    assert t[0] == text[0] && t[0..] == t && t[|text|..] == [DOT] + more && t[|text|] == DOT;
    assert t[|text| + 1..] == more;
    NoBlank(t);
    NoBlank([DOT] + more);
  }

  function HeaderBytes(path: seq<Bytes>, aot: bool): Bytes {
    if aot then [B('['), B('[')] + PathText(path) + [B(']'), B(']')] else [B('[')] + PathText(path) + [B(']')]
  }

  lemma {:induction false} PlainHeaderAt(p: Bytes, path: seq<Bytes>, rest: Bytes, max: nat)
    requires p != [] && p[0] != OPEN && PathAt(p + ([CLOSE] + rest), 0, max) == Parts(path, |p|)
    ensures HeaderAt([OPEN] + p + [CLOSE] + rest, max) == HeaderLine(path, false, |p| + 2)
  {
    hide PathAt;
    var t := [OPEN] + p + [CLOSE] + rest;
    assert t[1..] == p + ([CLOSE] + rest);
    assert t[1] == p[0] && t[1 + |p|] == CLOSE;
  }

  lemma {:induction false} AotHeaderAt(p: Bytes, path: seq<Bytes>, rest: Bytes, max: nat)
    requires PathAt(p + ([CLOSE, CLOSE] + rest), 0, max) == Parts(path, |p|)
    ensures HeaderAt([OPEN, OPEN] + p + [CLOSE, CLOSE] + rest, max) == HeaderLine(path, true, |p| + 4)
  {
    hide PathAt;
    var t := [OPEN, OPEN] + p + [CLOSE, CLOSE] + rest;
    assert t[2..] == p + ([CLOSE, CLOSE] + rest);
    assert t[1] == OPEN && t[2 + |p|] == CLOSE && t[3 + |p|] == CLOSE;
  }

  lemma {:induction false} PathStarts(path: seq<Bytes>)
    requires path != []
    ensures PathText(path) != [] && (IsBare(PathText(path)[0]) || IsQuote(PathText(path)[0]))
  {
    TextStarts(path[0]);
    hide TextOfKey;
  }

  /** A written header is read back, within the limit of parts. */
  lemma {:induction false} HeaderRoundTrip(path: seq<Bytes>, aot: bool, rest: Bytes, max: nat)
    requires path != [] && Clean(path) && |path| <= max
    ensures var t := HeaderBytes(path, aot) + rest;
            t != [] && t[0] == OPEN && HeaderAt(t, max) == HeaderLine(path, aot, |HeaderBytes(path, aot)|)
  {
    hide PathText, PathAt, HeaderAt;
    PathStarts(path);
    if aot {
      PathRoundTrip(path, [CLOSE, CLOSE] + rest, 0, max);
      AotHeaderAt(PathText(path), path, rest, max);
    } else {
      PathRoundTrip(path, [CLOSE] + rest, 0, max);
      PlainHeaderAt(PathText(path), path, rest, max);
    }
  }

  lemma {:induction false} BlanksAroundEquals(rest: Bytes)
    requires rest != [] ==> rest[0] != 32 && rest[0] != 9
    ensures var behind := [32, EQUALS, 32] + rest;
            BlankRun(behind) == 1 && behind[1] == EQUALS && BlankRun(behind[2..]) == 1 && BlankRun(behind[1..]) == 0
  {
    hide BlankRun;
    var behind := [32, EQUALS, 32] + rest;
    assert behind[1..][0] == EQUALS && behind[2..][0] == 32 && behind[2..][1..] == rest;
    NoBlank(behind[1..]);
    OneBlank(behind);
    NoBlank(rest);
    OneBlank(behind[2..]);
  }

  lemma {:induction false} KeyPartIs(text: Bytes, key: Bytes, behind: Bytes, max: nat)
    requires text != [] && (IsBare(text[0]) || IsQuote(text[0])) && KeyAt(text + behind) == Just((key, |text|))
    requires max >= 1 && |behind| >= 3 && behind[1] == EQUALS
    requires BlankRun(behind) == 1 && BlankRun(behind[1..]) == 0 && BlankRun(behind[2..]) == 1
    ensures KeyPartAt(text + behind, max) == KeyPart([key], |text| + 3)
  {
    hide KeyAt;
    var t := text + behind;
    assert t[0] == text[0] && t[0..] == t && BlankRun(t) == 0;
    assert t[|text|..] == behind && t[|text| + 1] == behind[1];
    assert t[|text| + 1..] == behind[1..] && t[|text| + 2..] == behind[2..];
    assert PathAt(t, 0, max) == Parts([key], |text| + 1);
    hide PathAt, BlankRun;
  }

  /** So is the key of a line, with the blanks and the equals sign behind it. */
  lemma {:induction false} KeyPartRoundTrip(key: Bytes, rest: Bytes, max: nat)
    requires DELETE !in key && max >= 1
    requires rest != [] ==> rest[0] != 32 && rest[0] != 9
    ensures KeyPartAt(TextOfKey(key) + [B(' '), B('='), B(' ')] + rest, max) == KeyPart([key], |TextOfKey(key)| + 3)
  {
    hide TextOfKey, KeyAt, KeyPartAt;
    var behind := [32, EQUALS, 32] + rest;
    TextStarts(key);
    KeyRoundTripIff(key, behind);
    BlanksAroundEquals(rest);
    KeyPartIs(TextOfKey(key), key, behind, max);
    Assoc(TextOfKey(key), [32, EQUALS, 32], rest);
  }

  /** A key with the delete character cannot be read back. */
  lemma {:induction false} DeleteIsWrittenRaw()
    ensures TextOfKey([DELETE]) == [QUOTE, DELETE, QUOTE] && KeyAt(TextOfKey([DELETE])) == Nothing
  {
    assert [DELETE][1..] == [] && KeyEscapedAll([DELETE]) == [DELETE] + [] == [DELETE];
    assert [DELETE][0] == DELETE && DELETE in [DELETE];
    QuotedScansBack([DELETE], []);
    QuotedKeyAt(QUOTE, [DELETE], [], Bad);
    assert [QUOTE] + [DELETE] + [QUOTE] + [] == [QUOTE, DELETE, QUOTE];
  }
}
