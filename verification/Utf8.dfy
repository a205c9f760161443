/** UTF-8: the grammar of RFC 3629, section 4, and the check the parser runs over
    a whole buffer before anything else. */
module Utf8 {

  type Byte = b: int | 0 <= b < 256

  type Bytes = seq<Byte>

  /** The byte of an ASCII character. */
  function B(c: char): (b: Byte)
    requires c as int < 128
  {
    c as int
  }

  /** A decimal digit. */
  predicate IsDec(c: Byte) {
    48 <= c <= 57
  }

  predicate IsTail(b: Byte) {
    0x80 <= b <= 0xBF
  }

  /** The length of the character that `t` starts with, by the grammar; 0 if it
      starts with none. */
  function CharLength(t: Bytes): (n: nat)
    ensures n <= |t| && n <= 4
  {
    if t == [] then 0
    else if t[0] <= 0x7F then 1
    else if |t| < 2 || !IsTail(t[1]) then 0
    else if 0xC2 <= t[0] <= 0xDF then 2
    else if |t| < 3 || !IsTail(t[2]) then 0
    else if (t[0] == 0xE0 && t[1] >= 0xA0) || 0xE1 <= t[0] <= 0xEC || (t[0] == 0xED && t[1] <= 0x9F)
      || 0xEE <= t[0] <= 0xEF then 3
    else if |t| < 4 || !IsTail(t[3]) then 0
    else if (t[0] == 0xF0 && t[1] >= 0x90) || 0xF1 <= t[0] <= 0xF3 || (t[0] == 0xF4 && t[1] <= 0x8F) then 4
    else 0
  }

  /** A sequence of characters. */
  predicate WellFormed(t: Bytes)
    decreases |t|
  {
    t == [] || (CharLength(t) > 0 && WellFormed(t[CharLength(t)..]))
  }

  lemma {:induction false} CharLengthPrefix(t: Bytes, u: Bytes)
    requires CharLength(t) > 0
    ensures CharLength(t + u) == CharLength(t)
  {
  }

  lemma {:induction false} WellFormedConcat(t: Bytes, u: Bytes)
    requires WellFormed(t)
    ensures WellFormed(t + u) <==> WellFormed(u)
    decreases |t|
  {
    if t == [] {
      assert t + u == u;
    } else {
      var n := CharLength(t);
      CharLengthPrefix(t, u);
      WellFormedConcat(t[n..], u);
      assert (t + u)[n..] == t[n..] + u;
    }
  }

  lemma {:induction false} OneChar(t: Bytes)
    requires t != [] && CharLength(t) == |t|
    ensures WellFormed(t)
  {
    assert t[|t|..] == [];
  }

  // ---------------------------------------------------------------- the check

  /** The bytes that follow a lead byte; 4 for a byte that leads nothing. */
  function Need(c: Byte): (n: nat)
    requires c >= 0x80
  {
    if 0xC0 <= c < 0xE0 then 1 else if 0xE0 <= c < 0xF0 then 2 else if 0xF0 <= c < 0xF8 then 3 else 4
  }

  function LeadBits(c: Byte): nat
    requires c >= 0x80
  {
    if Need(c) == 1 then c % 32 else if Need(c) == 2 then c % 16 else c % 8
  }

  function MinFor(need: nat): nat {
    if need == 1 then 0x80 else if need == 2 then 0x800 else 0x10000
  }

  predicate IsScalar(cp: nat) {
    cp <= 0x10FFFF && !(0xD800 <= cp <= 0xDFFF)
  }

  /** The code point gathered from the first `k` bytes after the lead. */
  function Gathered(t: Bytes, k: nat): nat
    requires k < |t| && t[0] >= 0x80
  {
    if k == 0 then LeadBits(t[0]) else Gathered(t, k - 1) * 64 + t[k] % 64
  }

  /** What the arithmetic of the check accepts is what the grammar lists. */
  lemma {:induction false} CheckIsGrammar(t: Bytes)
    requires t != [] && t[0] >= 0x80
    ensures var need := Need(t[0]);
            var good := need <= 3 && need < |t| && (forall k :: 1 <= k <= need ==> IsTail(t[k]))
                        && MinFor(need) <= Gathered(t, need) && IsScalar(Gathered(t, need));
            CharLength(t) == if good then need + 1 else 0
  {
    var need := Need(t[0]);
    if need <= 3 && need < |t| {
      if k :| 1 <= k <= need && !IsTail(t[k]) {
        assert k == 1 || k == 2 || k == 3;
      } else if need == 1 {
        TwoBytes(t);
      } else if need == 2 {
        ThreeBytes(t);
      } else {
        FourBytes(t);
      }
    }
  }

  lemma {:induction false} TwoBytes(t: Bytes)
    requires |t| >= 2 && 0xC0 <= t[0] < 0xE0 && IsTail(t[1])
    ensures CharLength(t) == if MinFor(1) <= Gathered(t, 1) && IsScalar(Gathered(t, 1)) then 2 else 0
  {
    var a: int, b: int := t[0], t[1];
    assert Gathered(t, 1) == (a - 0xC0) * 64 + (b - 0x80);
  }

  lemma {:induction false} ThreeBytes(t: Bytes)
    requires |t| >= 3 && 0xE0 <= t[0] < 0xF0 && IsTail(t[1]) && IsTail(t[2])
    ensures CharLength(t) == if MinFor(2) <= Gathered(t, 2) && IsScalar(Gathered(t, 2)) then 3 else 0
  {
    var a: int, b: int, c: int := t[0], t[1], t[2];
    assert Gathered(t, 1) == (a - 0xE0) * 64 + (b - 0x80);
    assert Gathered(t, 2) == (a - 0xE0) * 4096 + (b - 0x80) * 64 + (c - 0x80);
  }

  lemma {:induction false} FourBytes(t: Bytes)
    requires |t| >= 4 && 0xF0 <= t[0] < 0xF8 && IsTail(t[1]) && IsTail(t[2]) && IsTail(t[3])
    ensures CharLength(t) == if MinFor(3) <= Gathered(t, 3) && IsScalar(Gathered(t, 3)) then 4 else 0
  {
    var a: int, b: int, c: int, d: int := t[0], t[1], t[2], t[3];
    assert Gathered(t, 1) == (a - 0xF0) * 64 + (b - 0x80);
    assert Gathered(t, 2) == (a - 0xF0) * 4096 + (b - 0x80) * 64 + (c - 0x80);
    assert Gathered(t, 3) == (a - 0xF0) * 262144 + (b - 0x80) * 4096 + (c - 0x80) * 64 + (d - 0x80);
  }

  predicate Ascii(t: Bytes) {
    forall k :: 0 <= k < |t| ==> t[k] < 0x80
  }

  lemma {:induction false} AsciiIsWellFormed(t: Bytes)
    requires Ascii(t)
    ensures WellFormed(t)
    decreases |t|
  {
    if t != [] {
      AsciiIsWellFormed(t[1..]);
    }
  }

  /** What has been checked stays checked when a good piece follows. */
  lemma {:induction false} MoreChecked(data: Bytes, i: nat, j: nat)
    requires i <= j <= |data| && WellFormed(data[..i]) && WellFormed(data[i..j])
    ensures WellFormed(data[..j])
  {
    WellFormedConcat(data[..i], data[i..j]);
    assert data[..j] == data[..i] + data[i..j];
  }

  /** The length if the data is UTF-8, otherwise where the first thing that is
      not a character starts. */
  method InvalidAt(data: Bytes) returns (r: nat)
    ensures r <= |data| && WellFormed(data[..r])
    ensures r == |data| <==> WellFormed(data)
    ensures r < |data| ==> CharLength(data[r..]) == 0
  {
    var i := 0;
    while i < |data|
      invariant 0 <= i <= |data| && WellFormed(data[..i])
    {
      i := SkipAscii(data, i);
      if i >= |data| {
        break;
      }
      var c := data[i];
      if c < 0x80 {
        OneChar(data[i..i + 1]);
        MoreChecked(data, i, i + 1);
        i := i + 1;
      } else {
        var n := MultiByte(data, i);
        Stopped(data, i);
        if n == 0 {
          return i;
        }
        CharLengthOfPrefix(data, i, n);
        hide CharLength;
        OneChar(data[i..i + n]);
        MoreChecked(data, i, i + n);
        i := i + n;
      }
    }
    assert data[..i] == data;
    return |data|;
  }

  lemma {:induction false} EightMore(data: Bytes, i: nat)
    requires i + 8 <= |data| && WellFormed(data[..i]) && forall k :: i <= k < i + 8 ==> data[k] < 0x80
    ensures WellFormed(data[..i + 8])
  {
    AsciiIsWellFormed(data[i..i + 8]);
    hide WellFormed;
    MoreChecked(data, i, i + 8);
  }

  /** Eight bytes at a time while all are ASCII. */
  method SkipAscii(data: Bytes, from: nat) returns (i: nat)
    requires from <= |data| && WellFormed(data[..from])
    ensures from <= i <= |data| && WellFormed(data[..i])
  {
    i := from;
    while i + 8 <= |data| && (data[i] < 0x80 && data[i + 1] < 0x80 && data[i + 2] < 0x80 && data[i + 3] < 0x80
                              && data[i + 4] < 0x80 && data[i + 5] < 0x80 && data[i + 6] < 0x80 && data[i + 7] < 0x80)
      invariant from <= i <= |data| && WellFormed(data[..i])
    {
      hide WellFormed;
      EightMore(data, i);
      i := i + 8;
    }
  }

  /** The length of the character of several bytes at `i`, or 0. */
  method MultiByte(data: Bytes, i: nat) returns (n: nat)
    requires i < |data| && data[i] >= 0x80
    ensures n == CharLength(data[i..])
  {
    ghost var t := data[i..];
    CheckIsGrammar(t);
    hide CharLength;
    var need := Need(data[i]);
    if need > 3 {
      return 0;
    }
    if i + need >= |data| {
      return 0;
    }
    var cp := LeadBits(data[i]);
    var k := 1;
    while k <= need
      invariant 1 <= k <= need + 1 && cp == Gathered(t, k - 1)
      invariant forall j :: 1 <= j < k ==> IsTail(t[j])
    {
      var cc := data[i + k];
      if !(cc / 64 == 2) {
        assert !IsTail(t[k]);
        return 0;
      }
      cp := cp * 64 + cc % 64;
      k := k + 1;
    }
    if cp < MinFor(need) || (0xD800 <= cp <= 0xDFFF) || cp > 0x10FFFF {
      return 0;
    }
    return need + 1;
  }

  /** Where the check stops, the data is not UTF-8. */
  lemma {:induction false} Stopped(data: Bytes, i: nat)
    requires i < |data| && WellFormed(data[..i])
    ensures CharLength(data[i..]) == 0 ==> !WellFormed(data)
  {
    WellFormedConcat(data[..i], data[i..]);
    assert data == data[..i] + data[i..];
  }

  lemma {:induction false} CharLengthOfPrefix(data: Bytes, i: nat, n: nat)
    requires i < |data| && CharLength(data[i..]) == n > 0
    ensures i + n <= |data| && CharLength(data[i..i + n]) == n
  {
    var t := data[i..];
    assert data[i..i + n] == t[..n];
  }

  // --------------------------------------------------------------- encoding

  /** The bytes of a code point. */
  function Encode(cp: nat): Bytes
    requires IsScalar(cp)
  {
    if cp < 0x80 then [cp]
    else if cp < 0x800 then [0xC0 + cp / 64, 0x80 + cp % 64]
    else if cp < 0x10000 then [0xE0 + cp / 4096, 0x80 + (cp / 64) % 64, 0x80 + cp % 64]
    else [0xF0 + cp / 262144, 0x80 + (cp / 4096) % 64, 0x80 + (cp / 64) % 64, 0x80 + cp % 64]
  }

  lemma {:induction false} EncodeIsChar(cp: nat)
    requires IsScalar(cp)
    ensures Encode(cp) != [] && CharLength(Encode(cp)) == |Encode(cp)| && WellFormed(Encode(cp))
  {
    OneChar(Encode(cp));
  }
}
