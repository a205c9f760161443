/** The text of header lines: the general reader of key paths, with white space
    and quoted parts, and the scan of the fused path for bare ones. */
module HeaderText {
  import opened Sequences
  import opened Document
  import opened Utf8
  import opened Strings

  const DOT: Byte := 46
  const OPEN: Byte := 91
  const CLOSE: Byte := 93

  predicate IsBare(c: Byte) {
    IsDec(c) || 65 <= c <= 90 || 97 <= c <= 122 || c == 45 || c == 95
  }

  predicate IsQuote(c: Byte) {
    c == QUOTE || c == APOSTROPHE
  }

  function BareRun(t: Bytes): (n: nat)
    ensures n <= |t| && (forall k :: 0 <= k < n ==> IsBare(t[k])) && (n < |t| ==> !IsBare(t[n]))
    ensures t != [] && IsBare(t[0]) ==> n > 0
  {
    if t == [] || !IsBare(t[0]) then 0 else 1 + BareRun(t[1..])
  }

  datatype Lexed = SyntaxError | DepthError | Parts(parts: seq<Bytes>, n: nat)

  /** A key and its length: quoted, with escapes decoded, or bare. */
  function KeyAt(t: Bytes): (r: Maybe<(Bytes, nat)>)
    ensures r.Just? ==> 0 < r.value.1 <= |t|
  {
    if t == [] then Nothing
    else if IsQuote(t[0]) then
      var body := Body(t[1..], t[0], false);
      if body.Done? then Just((body.out, |t| - |body.rest|)) else Nothing
    else if IsBare(t[0]) then Just((t[..BareRun(t)], BareRun(t)))
    else Nothing
  }

  /** What is read behind some parts. */
  function Behind(parts: seq<Bytes>, n: nat, r: Lexed): Lexed {
    if r.Parts? then Parts(parts + r.parts, n + r.n) else r
  }

  /** A key path behind `before` parts: parts with dots between them, white space
      around each; at most `max` parts. */
  function PathAt(t: Bytes, before: nat, max: nat): (r: Lexed)
    ensures r.Parts? ==> r.n <= |t|
    decreases |t|
  {
    var w := BlankRun(t);
    var key := KeyAt(t[w..]);
    if key.Nothing? then SyntaxError
    else if before + 1 > max then DepthError
    else
      var m := w + key.value.1;
      var n := m + BlankRun(t[m..]);
      if n < |t| && t[n] == DOT then Behind([key.value.0], n + 1, PathAt(t[n + 1..], before + 1, max))
      else Parts([key.value.0], n)
  }

  datatype HeaderLine = BadHeader(depth: bool) | HeaderLine(parts: seq<Bytes>, aot: bool, n: nat)

  /** A whole header, from its bracket to behind the closing one. */
  function HeaderAt(t: Bytes, max: nat): HeaderLine
    requires t != [] && t[0] == OPEN
  {
    var aot := |t| > 1 && t[1] == OPEN;
    var from := if aot then 2 else 1;
    var path := PathAt(t[from..], 0, max);
    if !path.Parts? then BadHeader(path.DepthError?)
    else
      var n := from + path.n;
      if aot then
        if n + 2 <= |t| && t[n] == CLOSE && t[n + 1] == CLOSE then HeaderLine(path.parts, true, n + 2)
          else BadHeader(false)
      else if n < |t| && t[n] == CLOSE then HeaderLine(path.parts, false, n + 1)
      else BadHeader(false)
  }

  // ------------------------------------------------------------- general path

  method SkipWs(s: Bytes, from: nat) returns (p: nat)
    requires from <= |s|
    ensures p == from + BlankRun(s[from..])
  {
    p := SkipBlanks(s, from);
  }

  method ReadQuoted(s: Bytes, p: nat) returns (r: Maybe<(Bytes, nat)>)
    requires p < |s| && IsQuote(s[p])
    ensures r == KeyAt(s[p..])
  {
    hide Body;
    ghost var t := s[p..];
    assert t[1..] == s[p + 1..];
    var plain := TryPlainBody(s, p + 1, s[p]);
    if plain.Just? {
      return Just((s[p + 1..p + 1 + plain.value], plain.value + 2));
    }
    var ok, out, end := ScanBody(s, p + 1, s[p], false);
    return if ok then Just((out, end - p)) else Nothing;
  }

  method CountBare(s: Bytes, p: nat) returns (n: nat)
    requires p <= |s|
    ensures n == BareRun(s[p..])
  {
    n := 0;
    while p + n < |s| && IsBare(s[p + n])
      invariant p + n <= |s| && n + BareRun(s[p + n..]) == BareRun(s[p..])
    {
      assert s[p + n..][1..] == s[p + n + 1..];
      n := n + 1;
    }
  }

  method ReadKey(s: Bytes, p: nat) returns (r: Maybe<(Bytes, nat)>)
    requires p <= |s|
    ensures r == KeyAt(s[p..])
  {
    if p >= |s| {
      return Nothing;
    }
    if IsQuote(s[p]) {
      r := ReadQuoted(s, p);
      return;
    }
    if !IsBare(s[p]) {
      return Nothing;
    }
    var n := CountBare(s, p);
    assert s[p..][..n] == s[p..p + n];
    return Just((s[p..p + n], n));
  }

  lemma {:induction false} BehindBehind(parts: seq<Bytes>, n: nat, key: Bytes, m: nat, r: Lexed)
    ensures Behind(parts, n, Behind([key], m, r)) == Behind(parts + [key], n + m, r)
    ensures Behind([], 0, r) == r
  {
    if r.Parts? {
      assert parts + ([key] + r.parts) == (parts + [key]) + r.parts;
      assert [] + r.parts == r.parts;
    }
  }

  /** A key path seen from the cursor: after white space to `q`, a key to `m`, and
      white space to `n`. */
  lemma {:induction false} PathTurn(s: Bytes, p: nat, q: nat, key: Bytes, m: nat, n: nat, before: nat, max: nat)
    requires p <= q <= m <= n <= |s| && q == p + BlankRun(s[p..])
    requires KeyAt(s[q..]) == Just((key, m - q)) && n == m + BlankRun(s[m..])
    ensures PathAt(s[p..], before, max) ==
              if before + 1 > max then DepthError
              else if n < |s| && s[n] == DOT then Behind([key], n + 1 - p, PathAt(s[n + 1..], before + 1, max))
              else Parts([key], n - p)
  {
    hide KeyAt, BlankRun, Behind, PathAt;
    Suffix(s, p, q);
    Suffix(s, p, m);
    PathFirst(s[p..], q - p, key, m - p, n - p, before, max);
    if n < |s| {
      Suffix(s, p, n + 1);
    }
  }

  lemma {:induction false} PathFails(s: Bytes, p: nat, q: nat, before: nat, max: nat)
    requires p <= q <= |s| && q == p + BlankRun(s[p..]) && KeyAt(s[q..]).Nothing?
    ensures PathAt(s[p..], before, max) == SyntaxError
  {
    hide KeyAt, BlankRun, Behind;
    Suffix(s, p, q);
  }

  /** One key of the path, when its extent is known. */
  lemma {:induction false} PathFirst(t: Bytes, w: nat, key: Bytes, m: nat, n: nat, before: nat, max: nat)
    requires w == BlankRun(t) && w <= m <= n <= |t|
    requires KeyAt(t[w..]) == Just((key, m - w)) && n == m + BlankRun(t[m..])
    ensures PathAt(t, before, max) ==
              if before + 1 > max then DepthError
              else if n < |t| && t[n] == DOT then Behind([key], n + 1, PathAt(t[n + 1..], before + 1, max))
              else Parts([key], n)
  {
    hide KeyAt, BlankRun, Behind;
  }

  /** The loop that fills the parts; nothing limits them but `max`. */
  method ParseKeyPath(s: Bytes, from: nat, max: nat) returns (r: Lexed)
    requires from <= |s|
    ensures r == PathAt(s[from..], 0, max)
  {
    hide PathAt, KeyAt, BlankRun;
    var parts, p := [], from;
    BehindBehind([], 0, [], 0, PathAt(s[from..], 0, max));
    while true
      invariant from <= p <= |s|
      invariant PathAt(s[from..], 0, max) == Behind(parts, p - from, PathAt(s[p..], |parts|, max))
      decreases |s| - p
    {
      var q := SkipWs(s, p);
      var key := ReadKey(s, q);
      if key.Nothing? {
        PathFails(s, p, q, |parts|, max);
        return SyntaxError;
      }
      ghost var m := q + key.value.1;
      PathTurn(s, p, q, key.value.0, m, m + BlankRun(s[m..]), |parts|, max);
      if |parts| + 1 > max {
        return DepthError;
      }
      var n := SkipWs(s, q + key.value.1);
      if n < |s| && s[n] == DOT {
        BehindBehind(parts, p - from, key.value.0, n + 1 - p, PathAt(s[n + 1..], |parts| + 1, max));
        parts, p := parts + [key.value.0], n + 1;
      } else {
        return Parts(parts + [key.value.0], n - from);
      }
    }
  }

  method ParseHeader(s: Bytes, from: nat, max: nat) returns (r: HeaderLine)
    requires from < |s| && s[from] == OPEN
    ensures r == HeaderAt(s[from..], max)
  {
    hide PathAt;
    ghost var t := s[from..];
    var aot := from + 1 < |s| && s[from + 1] == OPEN;
    var p := if aot then from + 2 else from + 1;
    Suffix(s, from, p);
    var path := ParseKeyPath(s, p, max);
    if !path.Parts? {
      return BadHeader(path.DepthError?);
    }
    p := p + path.n;
    if aot {
      return if p + 2 <= |s| && s[p] == CLOSE && s[p + 1] == CLOSE then HeaderLine(path.parts, true, p + 2 - from)
             else BadHeader(false);
    }
    return if p < |s| && s[p] == CLOSE then HeaderLine(path.parts, false, p + 1 - from) else BadHeader(false);
  }

  // --------------------------------------------------------------- fused path

  const MAX_FAST_PARTS: nat := 8

  /** Bare parts with dots between them and nothing else, at most eight. */
  function BareParts(t: Bytes, before: nat): (r: Maybe<(seq<Bytes>, nat)>)
    requires before <= MAX_FAST_PARTS
    ensures r.Just? ==> r.value.1 <= |t| && before + |r.value.0| <= MAX_FAST_PARTS
    decreases |t|
  {
    if t == [] || !IsBare(t[0]) || before == MAX_FAST_PARTS then Nothing
    else
      var n := BareRun(t);
      if n < |t| && t[n] == DOT then After([t[..n]], n + 1, BareParts(t[n + 1..], before + 1))
      else Just(([t[..n]], n))
  }

  /** What is scanned behind some parts. */
  function After(parts: seq<Bytes>, n: nat, r: Maybe<(seq<Bytes>, nat)>): Maybe<(seq<Bytes>, nat)> {
    if r.Just? then Just((parts + r.value.0, n + r.value.1)) else Nothing
  }

  /** The header shape that the fused path takes. */
  function FastHeaderAt(t: Bytes): Maybe<(seq<Bytes>, nat)> {
    if |t| < 2 || t[0] != OPEN || t[1] == OPEN then Nothing
    else
      var parts := BareParts(t[1..], 0);
      if parts.Nothing? then Nothing
      else
        var n := 1 + parts.value.1;
        if n < |t| && t[n] == CLOSE then Just((parts.value.0, n + 1)) else Nothing
  }

  /** The scan of the fused path; it changes nothing, whatever it finds. */
  method ScanFastHeader(s: Bytes, from: nat) returns (r: Maybe<(seq<Bytes>, nat)>)
    requires from <= |s|
    ensures r == FastHeaderAt(s[from..])
  {
    if from >= |s| || s[from] != OPEN {
      return Nothing;
    }
    if from + 1 >= |s| || s[from + 1] == OPEN {
      return Nothing;
    }
    assert s[from..][1..] == s[from + 1..];
    var scanned := ScanBareParts(s, from + 1);
    if scanned.Nothing? {
      return Nothing;
    }
    var q := from + 1 + scanned.value.1;
    return if q < |s| && s[q] == CLOSE then Just((scanned.value.0, q + 1 - from)) else Nothing;
  }

  lemma {:induction false} NoBareTurn(s: Bytes, q: nat, before: nat)
    requires q <= |s| && before <= MAX_FAST_PARTS
    ensures q == |s| || !IsBare(s[q]) || before == MAX_FAST_PARTS ==> BareParts(s[q..], before).Nothing?
  {
  }

  /** The fused scan seen from the cursor. */
  lemma {:induction false} BareTurn(s: Bytes, q: nat, before: nat)
    requires q < |s| && IsBare(s[q]) && before < MAX_FAST_PARTS
    ensures var end := q + BareRun(s[q..]);
            BareParts(s[q..], before) ==
              if end < |s| && s[end] == DOT then After([s[q..end]], end + 1 - q, BareParts(s[end + 1..], before + 1))
              else Just(([s[q..end]], end - q))
  {
    hide BareRun, After;
    var n := BareRun(s[q..]);
    assert s[q..][..n] == s[q..q + n];
    if q + n < |s| {
      Suffix(s, q, q + n + 1);
      assert s[q..][n] == s[q + n];
    }
  }

  method ScanBareParts(s: Bytes, from: nat) returns (r: Maybe<(seq<Bytes>, nat)>)
    requires from <= |s|
    ensures r == BareParts(s[from..], 0)
  {
    hide BareRun, BareParts;
    var q := from;
    var parts: seq<Bytes> := [];
    AfterAfter([], 0, [], 0, BareParts(s[from..], 0));
    while true
      invariant from <= q <= |s| && |parts| <= MAX_FAST_PARTS
      invariant BareParts(s[from..], 0) == After(parts, q - from, BareParts(s[q..], |parts|))
      decreases |s| - q
    {
      NoBareTurn(s, q, |parts|);
      if q >= |s| || !IsBare(s[q]) {
        return Nothing;
      }
      if |parts| == MAX_FAST_PARTS {
        return Nothing;
      }
      BareTurn(s, q, |parts|);
      var n := CountBare(s, q);
      var end := q + n;
      if end < |s| && s[end] == DOT {
        AfterAfter(parts, q - from, s[q..end], n + 1, BareParts(s[end + 1..], |parts| + 1));
        parts, q := parts + [s[q..end]], end + 1;
      } else {
        return Just((parts + [s[q..end]], end - from));
      }
    }
  }

  lemma {:induction false} AfterAfter(parts: seq<Bytes>, n: nat, key: Bytes, m: nat, r: Maybe<(seq<Bytes>, nat)>)
    ensures After(parts, n, After([key], m, r)) == After(parts + [key], n + m, r)
    ensures After([], 0, r) == r
  {
    if r.Just? {
      assert parts + ([key] + r.value.0) == (parts + [key]) + r.value.0;
      assert [] + r.value.0 == r.value.0;
    }
  }

  /** Bare parts are read alike by both - no white space to skip, no quotes - up
      to the depth limit. */
  lemma {:induction false} BarePartsAgree(t: Bytes, before: nat, max: nat, parts: seq<Bytes>, n: nat)
    requires before <= MAX_FAST_PARTS && BareParts(t, before) == Just((parts, n)) && n < |t| && t[n] == CLOSE
    ensures PathAt(t, before, max) == if before + |parts| <= max then Parts(parts, n) else DepthError
    decreases |t|, 1
  {
    BareScan(t, before);
    if BareRun(t) < |t| && t[BareRun(t)] == DOT {
      MorePartsAgree(t, BareRun(t), before, max, parts, n);
    }
    hide BareParts, PathAt, BareRun;
    BarePath(t, before, max);
  }

  /** A bare part with a dot behind it. */
  lemma {:induction false} MorePartsAgree(t: Bytes, m: nat, before: nat, max: nat, parts: seq<Bytes>, n: nat)
    requires before < MAX_FAST_PARTS && m < |t| && n < |t| && t[n] == CLOSE
    requires After([t[..m]], m + 1, BareParts(t[m + 1..], before + 1)) == Just((parts, n))
    ensures Behind([t[..m]], m + 1, PathAt(t[m + 1..], before + 1, max)) ==
              if before + |parts| <= max then Parts(parts, n) else DepthError
    decreases |t|, 0
  {
    hide BareParts, PathAt;
    var more := BareParts(t[m + 1..], before + 1).value;
    assert t[m + 1..][more.1] == t[n];
    BarePartsAgree(t[m + 1..], before + 1, max, more.0, more.1);
  }

  lemma {:induction false} BareScan(t: Bytes, before: nat)
    requires before <= MAX_FAST_PARTS && BareParts(t, before).Just?
    ensures t != [] && IsBare(t[0]) && before < MAX_FAST_PARTS
    ensures var n := BareRun(t);
            BareParts(t, before) ==
              if n < |t| && t[n] == DOT then After([t[..n]], n + 1, BareParts(t[n + 1..], before + 1))
              else Just(([t[..n]], n))
  {
  }

  /** How the general reader takes a bare part. */
  lemma {:induction false} BarePath(t: Bytes, before: nat, max: nat)
    requires t != [] && IsBare(t[0]) && (BareRun(t) < |t| ==> t[BareRun(t)] == DOT || t[BareRun(t)] == CLOSE)
    ensures var n := BareRun(t);
            PathAt(t, before, max) ==
              if before + 1 > max then DepthError
              else if n < |t| && t[n] == DOT then Behind([t[..n]], n + 1, PathAt(t[n + 1..], before + 1, max))
              else Parts([t[..n]], n)
  {
    BareKeyAt(t);
    hide KeyAt, BlankRun, BareRun, Behind;
  }

  lemma {:induction false} BareKeyAt(t: Bytes)
    requires t != [] && IsBare(t[0]) && (BareRun(t) < |t| ==> t[BareRun(t)] == DOT || t[BareRun(t)] == CLOSE)
    ensures BlankRun(t) == 0 && t[0..] == t && KeyAt(t) == Just((t[..BareRun(t)], BareRun(t)))
            && BlankRun(t[BareRun(t)..]) == 0
  {
  }

  /** When the fused path takes a header, the general one reads the same parts and
      leaves its cursor in the same place - if and only if the parts keep the
      depth limit, which a limit of eight makes sure of. */
  lemma {:induction false} FastHeaderAgreesIff(t: Bytes, max: nat)
    requires FastHeaderAt(t).Just?
    ensures var r := FastHeaderAt(t).value;
            && (HeaderAt(t, max) == HeaderLine(r.0, false, r.1) <==> |r.0| <= max)
            && |r.0| <= MAX_FAST_PARTS
  {
    var r := BareParts(t[1..], 0).value;
    BarePartsAgree(t[1..], 0, max, r.0, r.1);
  }

  const AThenB: Bytes := [97, DOT, 98, CLOSE]

  /** `[a.b]` with a limit of one part. */
  lemma {:induction false} FastHeaderIgnoresLimit()
    ensures var t := [OPEN] + AThenB;
            FastHeaderAt(t) == Just(([[97], [98]], 5)) && HeaderAt(t, 1) == BadHeader(true)
  {
    var t: Bytes, parts: seq<Bytes> := [OPEN] + AThenB, [[97], [98]];
    assert t[1..] == AThenB;
    TwoParts();
    BarePartsAgree(AThenB, 0, 1, parts, 3);
    hide BareParts, PathAt;
  }

  lemma {:induction false} TwoParts()
    ensures BareParts(AThenB, 0) == Just(([[97], [98]], 3))
  {
    var w: Bytes, parts: seq<Bytes> := [98, CLOSE], [[97], [98]];
    assert AThenB[1..] == [DOT, 98, CLOSE] && AThenB[2..] == w && w[1..] == [CLOSE];
    assert BareRun(AThenB[1..]) == 0 && BareRun(w[1..]) == 0;
    assert BareRun(AThenB) == 1 && BareRun(w) == 1;
    assert AThenB[..1] == [97] && w[..1] == [98];
    assert BareParts(w, 1) == Just(([[98]], 1));
    assert [[97]] + [[98]] == parts;
  }

  // ---------------------------------------------------------------- key lines

  const EQUALS: Byte := 61

  datatype KeyPart = BadKey(depth: bool) | KeyPart(parts: seq<Bytes>, n: nat)

  /** The key of a line, up to where the value starts. */
  function KeyPartAt(t: Bytes, max: nat): KeyPart {
    var path := PathAt(t, 0, max);
    if !path.Parts? then BadKey(path.DepthError?)
    else
      var n := path.n + BlankRun(t[path.n..]);
      if n < |t| && t[n] == EQUALS then KeyPart(path.parts, n + 1 + BlankRun(t[n + 1..])) else BadKey(false)
  }

  /** The key that the fused path takes: bare, with an equals sign behind it. */
  function FastKeyAt(t: Bytes): Maybe<(Bytes, nat)> {
    if t == [] || !IsBare(t[0]) then Nothing
    else
      var k := BareRun(t);
      var n := k + BlankRun(t[k..]);
      if n < |t| && t[n] == EQUALS then Just((t[..k], n + 1 + BlankRun(t[n + 1..]))) else Nothing
  }

  method ParseKeyPart(s: Bytes, from: nat, max: nat) returns (r: KeyPart)
    requires from <= |s|
    ensures r == KeyPartAt(s[from..], max)
  {
    hide PathAt, BlankRun;
    var path := ParseKeyPath(s, from, max);
    if !path.Parts? {
      return BadKey(path.DepthError?);
    }
    Suffix(s, from, from + path.n);
    var p := SkipWs(s, from + path.n);
    if p >= |s| || s[p] != EQUALS {
      return BadKey(false);
    }
    Suffix(s, from, p + 1);
    var end := SkipWs(s, p + 1);
    return KeyPart(path.parts, end - from);
  }

  method ScanFastKey(s: Bytes, from: nat) returns (r: Maybe<(Bytes, nat)>)
    requires from <= |s|
    ensures r == FastKeyAt(s[from..])
  {
    hide BareRun, BlankRun, IsBare;
    if from >= |s| || !IsBare(s[from]) {
      return Nothing;
    }
    var k := CountBare(s, from);
    Suffix(s, from, from + k);
    assert s[from..][..k] == s[from..from + k];
    var p := SkipWs(s, from + k);
    if p >= |s| || s[p] != EQUALS {
      return Nothing;
    }
    Suffix(s, from, p + 1);
    var end := SkipWs(s, p + 1);
    return Just((s[from..from + k], end - from));
  }

  /** The general reader takes the key that the fused path takes for the same one
      part, with the value in the same place - if and only if any part is allowed
      at all. */
  lemma {:induction false} FastKeyAgreesIff(t: Bytes, max: nat)
    requires FastKeyAt(t).Just?
    ensures var r := FastKeyAt(t).value;
            KeyPartAt(t, max) == KeyPart([r.0], r.1) <==> 1 <= max
  {
    var k := BareRun(t);
    var n := k + BlankRun(t[k..]);
    BareKeyAlone(t);
    if 1 <= max {
      PathFirst(t, 0, t[..k], k, n, 0, max);
    }
    assert t[n..] != [] && t[n..][0] == EQUALS;
  }

  lemma {:induction false} BareKeyAlone(t: Bytes)
    requires t != [] && IsBare(t[0])
    ensures BlankRun(t) == 0 && t[0..] == t && KeyAt(t) == Just((t[..BareRun(t)], BareRun(t)))
  {
  }
}
