/** The dispatch on the first byte of a number or a date, and its fast form: a
    text that has the shape of a date is one, even if it starts like a number. */
module Dispatch {
  import opened Document
  import opened Utf8
  import opened Datetimes
  import opened DatetimeGrammar
  import opened Numbers

  datatype Value = Dated(kind: Kind, stamp: Stamp, n: nat) | BadDate | Num(number: Number) | Elsewhere

  /** Numbers and dates; other values start with other bytes. */
  function ValueAt(t: Bytes): Value {
    if t == [] then Elsewhere
    else if t[0] == 43 || t[0] == 45 then Num(NumberAt(t[1..], true, t[0] == 45))
    else if t[0] == 105 || t[0] == 110 then Num(NumberAt(t, false, false))
    else DefaultAt(t)
  }

  function DefaultAt(t: Bytes): Value {
    if LooksLikeStamp(t) then StampValue(StampAt(t))
    else if t != [] && IsDec(t[0]) then Num(NumberAt(t, false, false))
    else Elsewhere
  }

  function StampValue(r: Maybe<(Kind, Stamp, nat)>): Value {
    if r.Just? then Dated(r.value.0, r.value.1, r.value.2) else BadDate
  }

  /** Does a date follow?  The separators are looked at first. */
  method LookAhead(s: Bytes, p: nat) returns (r: bool)
    requires p <= |s|
    ensures r == LooksLikeStamp(s[p..])
  {
    if |s| - p >= 10 && s[p + 4] == HYPHEN && s[p + 7] == HYPHEN && IsDec(s[p]) && IsDec(s[p + 1]) && IsDec(s[p + 2])
       && IsDec(s[p + 3]) && IsDec(s[p + 5]) && IsDec(s[p + 6]) && IsDec(s[p + 8]) && IsDec(s[p + 9]) {
      return true;
    }
    if |s| - p >= 5 && s[p + 2] == COLON && IsDec(s[p]) && IsDec(s[p + 1]) && IsDec(s[p + 3]) && IsDec(s[p + 4]) {
      return true;
    }
    return false;
  }

  method ParseValue(s: Bytes, p: nat) returns (r: Value)
    requires p <= |s|
    ensures r == ValueAt(s[p..])
  {
    hide NumberAt, StampAt, LooksLikeStamp;
    if p >= |s| {
      return Elsewhere;
    }
    assert s[p..][1..] == s[p + 1..];
    if s[p] == 43 || s[p] == 45 {
      var signed := ParseNumber(s, p, true);
      return Num(signed);
    }
    if s[p] == 105 || s[p] == 110 {
      var word := ParseNumber(s, p, false);
      return Num(word);
    }
    var dated := LookAhead(s, p);
    if dated {
      var stamp := ParseStamp(s, p);
      return StampValue(stamp);
    }
    if IsDec(s[p]) {
      var number := ParseNumber(s, p, false);
      return Num(number);
    }
    return Elsewhere;
  }

  /** The short path for values that start with a digit; everything else goes
      through the general dispatch.  Either way the result is the same. */
  method ParseValueFast(s: Bytes, p: nat) returns (r: Value)
    requires p <= |s|
    ensures r == ValueAt(s[p..])
  {
    hide NumberAt, StampAt, LooksLikeStamp;
    if p < |s| && IsDec(s[p]) {
      var dated := LookAhead(s, p);
      if dated {
        var stamp := ParseStamp(s, p);
        return StampValue(stamp);
      }
      var number := ParseDigitLed(s, p);
      return Num(number);
    }
    r := ParseValue(s, p);
  }

  // --------------------------------------------------------------- round trips

  /** The text of an integer is never taken for a date. */
  lemma {:induction false} NoDateInDigits(ds: Bytes, rest: Bytes)
    requires AllDigits(ds) && Terminates(rest)
    ensures !LooksLikeStamp(ds + rest)
  {
    var t := ds + rest;
    assert |ds| < |t| ==> t[|ds|] == rest[0];
    assert forall k :: 0 <= k < |ds| ==> t[k] == ds[k];
  }

  /** Every 64-bit integer comes back from its text through the dispatch. */
  lemma {:induction false} IntegerDispatched(v: int, rest: Bytes)
    requires -INT64 <= v < INT64 && Terminates(rest)
    ensures ValueAt(IntText(v) + rest) == Num(IntNumber(v, |DecText(if v < 0 then -v else v)|))
  {
    var m: nat := if v < 0 then -v else v;
    IntRoundTrip(v, rest);
    SignedText(v, m, rest);
    WrittenStart(m, rest);
    DecTextIsDigits(m);
    NoDateInDigits(DecText(m), rest);
    hide NumberAt, DecText, IntText, LooksLikeStamp;
  }

  lemma {:induction false} DecTextIsDigits(m: nat)
    ensures AllDigits(DecText(m))
  {
  }

  /** ... and so does every producible date or time. */
  lemma {:induction false} StampDispatched(k: Kind, d: Stamp, rest: Bytes)
    requires Producible(k, d) && Terminates(rest)
    ensures ValueAt(StampText(k, d) + rest) == Dated(k, d, |StampText(k, d)|)
  {
    StampRoundTrip(k, d, rest);
    StampStartsWithDigit(StampText(k, d) + rest);
    hide StampAt, StampText, LooksLikeStamp, Producible, NumberAt;
  }

  lemma {:induction false} StampStartsWithDigit(t: Bytes)
    requires LooksLikeStamp(t)
    ensures t != [] && IsDec(t[0])
  {
  }
}
