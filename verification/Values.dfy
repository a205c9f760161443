/** The values a schema judges, and when two of them count as equal.

    Numbers are compared by what they are worth, whether written as an integer or
    as a float; members in any order; a date equals a string that spells it. */
module Values {
  import opened Counting

  datatype Float = Finite(value: real) | Infinite(negative: bool) | NotANumber

  datatype StampKind = DateTime | DateOnly | TimeOnly

  datatype Value =
    | Text(text: string)
    | Whole(i: int)
    | Fraction(f: Float)
    | Flag(b: bool)
    | Null
    | Stamp(kind: StampKind, spelling: string)
    | Object(members: seq<Member>)
    | List(items: seq<Value>)

  datatype Member = Member(key: string, value: Value)

  /** The first member with that key, or their number. */
  function MemberIndex(ms: seq<Member>, key: string): (k: nat)
    ensures k <= |ms| && (k < |ms| ==> ms[k].key == key)
    ensures forall j :: 0 <= j < k ==> ms[j].key != key
  {
    if ms == [] then 0 else if ms[0].key == key then 0 else 1 + MemberIndex(ms[1..], key)
  }

  const UTC: string := "+00:00"

  /** A string spells a date: as it is, or with the offset of UTC for its `Z`. */
  predicate Spells(kind: StampKind, s: string, t: string) {
    || s == t
    || (&& kind.DateTime? && |s| > 0 && s[|s| - 1] == 'Z'
        && |t| > |UTC| && t[|t| - |UTC|..] == UTC && t[..|t| - |UTC|] == s[..|s| - 1])
  }

  predicate SameScalar(a: Value, b: Value) {
    match (a, b)
    case (Text(s), Text(t)) => s == t
    case (Whole(i), Whole(j)) => i == j
    case (Fraction(f), Fraction(g)) => f == g && !f.NotANumber?
    case (Whole(i), Fraction(g)) => g == Finite(i as real)
    case (Fraction(f), Whole(j)) => f == Finite(j as real)
    case (Flag(p), Flag(q)) => p == q
    case (Null, Null) => true
    case (Stamp(k, s), Stamp(l, t)) => k == l && s == t
    case (Stamp(k, s), Text(t)) => Spells(k, s, t)
    case (Text(s), Stamp(l, t)) => Spells(l, t, s)
    case _ => false
  }

  predicate SameValue(a: Value, b: Value)
    decreases a
  {
    match (a, b)
    case (List(xs), List(ys)) => |xs| == |ys| && forall i :: 0 <= i < |xs| ==> SameValue(xs[i], ys[i])
    case (Object(ms), Object(ns)) =>
      |ms| == |ns| && forall i :: 0 <= i < |ms| ==>
        var k := MemberIndex(ns, ms[i].key);
        k < |ns| && SameValue(ms[i].value, ns[k].value)
    case _ => SameScalar(a, b)
  }

  /** The recursive comparison. */
  method Compare(a: Value, b: Value) returns (same: bool)
    ensures same == SameValue(a, b)
    decreases a
  {
    if a.List? && b.List? {
      same := CompareItems(a.items, b.items);
    } else if a.Object? && b.Object? {
      same := CompareMembers(a.members, b.members);
    } else {
      same := SameScalar(a, b);
    }
  }

  method CompareItems(xs: seq<Value>, ys: seq<Value>) returns (same: bool)
    ensures same == SameValue(List(xs), List(ys))
    decreases xs
  {
    if |xs| != |ys| {
      return false;
    }
    var i := 0;
    while i < |xs|
      invariant 0 <= i <= |xs| && forall k :: 0 <= k < i ==> SameValue(xs[k], ys[k])
    {
      var item := Compare(xs[i], ys[i]);
      if !item {
        return false;
      }
      i := i + 1;
    }
    same := true;
  }

  method CompareMembers(ms: seq<Member>, ns: seq<Member>) returns (same: bool)
    ensures same == SameValue(Object(ms), Object(ns))
    decreases ms
  {
    if |ms| != |ns| {
      return false;
    }
    var i := 0;
    while i < |ms|
      invariant 0 <= i <= |ms| == |ns|
      invariant forall k :: 0 <= k < i ==>
                  var o := MemberIndex(ns, ms[k].key); o < |ns| && SameValue(ms[k].value, ns[o].value)
    {
      var o := FindMember(ns, ms[i].key);
      if o == |ns| {
        return false;
      }
      var member := Compare(ms[i].value, ns[o].value);
      if !member {
        return false;
      }
      i := i + 1;
    }
    same := true;
  }

  method FindMember(ns: seq<Member>, key: string) returns (o: nat)
    ensures o == MemberIndex(ns, key)
  {
    o := 0;
    while o < |ns| && ns[o].key != key
      invariant 0 <= o <= |ns| && forall j :: 0 <= j < o ==> ns[j].key != key
    {
      o := o + 1;
    }
    IndexIs(ns, key, o);
  }

  lemma {:induction false} IndexIs(ns: seq<Member>, key: string, o: nat)
    requires o <= |ns| && (o < |ns| ==> ns[o].key == key) && forall j :: 0 <= j < o ==> ns[j].key != key
    ensures MemberIndex(ns, key) == o
  {
    var k := MemberIndex(ns, key);
    assert !(k < o) && !(o < k);
  }

  // ------------------------------------------------------ what a value denotes

  /** What is left of a value when spelling and order are forgotten. */
  datatype Meaning =
    | AText(text: string)
    | ANumber(worth: real)
    | AnInfinity(negative: bool)
    | NoNumber
    | AFlag(b: bool)
    | ANull
    | ADate(kind: StampKind, spelling: string)
    | ARecord(fields: map<string, Meaning>)
    | ASequence(items: seq<Meaning>)

  function Denotes(v: Value): Meaning
    decreases v, 1
  {
    match v
    case Text(s) => AText(s)
    case Whole(i) => ANumber(i as real)
    case Fraction(Finite(r)) => ANumber(r)
    case Fraction(Infinite(n)) => AnInfinity(n)
    case Fraction(NotANumber) => NoNumber
    case Flag(b) => AFlag(b)
    case Null => ANull
    case Stamp(k, s) => ADate(k, s)
    case Object(ms) => ARecord(FieldsOf(ms))
    case List(xs) => ASequence(ItemsOf(xs))
  }

  function FieldsOf(ms: seq<Member>): map<string, Meaning>
    decreases ms, 0
  {
    if ms == [] then map[]
    else
      var n := |ms| - 1;
      FieldsOf(ms[..n])[ms[n].key := Denotes(ms[n].value)]
  }

  function ItemsOf(xs: seq<Value>): (r: seq<Meaning>)
    ensures |r| == |xs|
    decreases xs, 0
  {
    if xs == [] then [] else ItemsOf(xs[..|xs| - 1]) + [Denotes(xs[|xs| - 1])]
  }

  lemma {:induction false} ItemsOfAt(xs: seq<Value>, i: nat)
    requires i < |xs|
    ensures ItemsOf(xs)[i] == Denotes(xs[i])
  {
    if i < |xs| - 1 {
      ItemsOfAt(xs[..|xs| - 1], i);
    }
  }

  /** No object, however deep, has two members with one key. */
  ghost predicate Keyed(v: Value) {
    match v
    case Object(ms) =>
      && (forall i, k :: 0 <= i < k < |ms| ==> ms[i].key != ms[k].key)
      && forall i :: 0 <= i < |ms| ==> Keyed(ms[i].value)
    case List(xs) => forall i :: 0 <= i < |xs| ==> Keyed(xs[i])
    case _ => true
  }

  /** Somewhere in the value there is a text, a date, or no number. */
  predicate HasText(v: Value) {
    match v
    case Text(_) => true
    case Object(ms) => exists i :: 0 <= i < |ms| && HasText(ms[i].value)
    case List(xs) => exists i :: 0 <= i < |xs| && HasText(xs[i])
    case _ => false
  }

  predicate HasStamp(v: Value) {
    match v
    case Stamp(_, _) => true
    case Object(ms) => exists i :: 0 <= i < |ms| && HasStamp(ms[i].value)
    case List(xs) => exists i :: 0 <= i < |xs| && HasStamp(xs[i])
    case _ => false
  }

  predicate HasNoNumber(v: Value) {
    match v
    case Fraction(f) => f.NotANumber?
    case Object(ms) => exists i :: 0 <= i < |ms| && HasNoNumber(ms[i].value)
    case List(xs) => exists i :: 0 <= i < |xs| && HasNoNumber(xs[i])
    case _ => false
  }

  /** No date of one can meet a text of the other. */
  predicate Apart(a: Value, b: Value) {
    !(HasText(a) && HasStamp(b)) && !(HasStamp(a) && HasText(b))
  }

  /** The fields are the members, by key. */
  lemma {:induction false} FieldsAre(ms: seq<Member>, key: string)
    requires Keyed(Object(ms))
    ensures key in FieldsOf(ms) <==> MemberIndex(ms, key) < |ms|
    ensures key in FieldsOf(ms) ==> FieldsOf(ms)[key] == Denotes(ms[MemberIndex(ms, key)].value)
    decreases |ms|
  {
    if ms != [] {
      var n := |ms| - 1;
      FieldsAre(ms[..n], key);
      var k := MemberIndex(ms[..n], key);
      IndexIs(ms, key, if k < n then k else if ms[n].key == key then n else n + 1);
    }
  }

  lemma {:induction false} FieldCount(ms: seq<Member>)
    requires Keyed(Object(ms))
    ensures |FieldsOf(ms).Keys| == |ms|
    decreases |ms|
  {
    if ms != [] {
      var n := |ms| - 1;
      FieldCount(ms[..n]);
      FieldsAre(ms[..n], ms[n].key);
      assert MemberIndex(ms[..n], ms[n].key) == n;
      assert FieldsOf(ms).Keys == FieldsOf(ms[..n]).Keys + {ms[n].key};
    }
  }

  lemma {:induction false} SameKeysIf(a: set<string>, b: set<string>)
    requires a <= b && |a| == |b|
    ensures a == b
  {
    if a != b {
      var x :| x in b && x !in a;
      assert a <= b - {x};
      SubsetSize(a, b - {x});
    }
  }

  /** Two values without numbers that are none, in which no date meets a text, are
      equal if and only if they denote the same. */
  lemma {:induction false} SameIffDenotesSame(a: Value, b: Value)
    requires Keyed(a) && Keyed(b) && !HasNoNumber(a) && Apart(a, b)
    ensures SameValue(a, b) <==> Denotes(a) == Denotes(b)
    decreases a
  {
    match (a, b)
    case (List(xs), List(ys)) => SameItems(xs, ys);
    case (Object(ms), Object(ns)) => SameMembers(ms, ns);
    case _ =>
  }

  lemma {:induction false} SameItems(xs: seq<Value>, ys: seq<Value>)
    requires Keyed(List(xs)) && Keyed(List(ys)) && !HasNoNumber(List(xs)) && Apart(List(xs), List(ys))
    ensures SameValue(List(xs), List(ys)) <==> ItemsOf(xs) == ItemsOf(ys)
    decreases xs
  {
    if |xs| == |ys| {
      forall i | 0 <= i < |xs| ensures SameValue(xs[i], ys[i]) <==> ItemsOf(xs)[i] == ItemsOf(ys)[i] {
        ItemsOfAt(xs, i);
        ItemsOfAt(ys, i);
        SameIffDenotesSame(xs[i], ys[i]);
      }
    }
  }

  lemma {:induction false} SameMembers(ms: seq<Member>, ns: seq<Member>)
    requires Keyed(Object(ms)) && Keyed(Object(ns)) && !HasNoNumber(Object(ms)) && Apart(Object(ms), Object(ns))
    ensures SameValue(Object(ms), Object(ns)) <==> FieldsOf(ms) == FieldsOf(ns)
    decreases ms
  {
    FieldCount(ms);
    FieldCount(ns);
    forall i | 0 <= i < |ms| ensures SameField(ms, ns, i) <==> FieldAgrees(ms, ns, ms[i].key) {
      var k := MemberIndex(ns, ms[i].key);
      FieldsAre(ms, ms[i].key);
      FieldsAre(ns, ms[i].key);
      IndexIs(ms, ms[i].key, i);
      if k < |ns| {
        SameIffDenotesSame(ms[i].value, ns[k].value);
      }
    }
    hide FieldsOf, SameValue, Keyed, HasNoNumber, Apart;
    SameByField(ms, ns);
    AgreeByField(ms, ns);
  }

  predicate SameField(ms: seq<Member>, ns: seq<Member>, i: nat)
    requires i < |ms|
  {
    var k := MemberIndex(ns, ms[i].key);
    k < |ns| && SameValue(ms[i].value, ns[k].value)
  }

  predicate FieldAgrees(ms: seq<Member>, ns: seq<Member>, key: string) {
    key in FieldsOf(ms) && key in FieldsOf(ns) && FieldsOf(ms)[key] == FieldsOf(ns)[key]
  }

  lemma {:induction false} SameByField(ms: seq<Member>, ns: seq<Member>)
    ensures SameValue(Object(ms), Object(ns)) <==>
              |ms| == |ns| && forall i :: 0 <= i < |ms| ==> SameField(ms, ns, i)
  {
    if |ms| == |ns| && forall i :: 0 <= i < |ms| ==> SameField(ms, ns, i) {
      forall i | 0 <= i < |ms|
        ensures var k := MemberIndex(ns, ms[i].key); k < |ns| && SameValue(ms[i].value, ns[k].value)
      {
        assert SameField(ms, ns, i);
      }
    }
  }

  lemma {:induction false} AgreeByField(ms: seq<Member>, ns: seq<Member>)
    requires Keyed(Object(ms)) && |FieldsOf(ms).Keys| == |ms| && |FieldsOf(ns).Keys| == |ns|
    ensures FieldsOf(ms) == FieldsOf(ns) <==>
              |ms| == |ns| && forall i :: 0 <= i < |ms| ==> FieldAgrees(ms, ns, ms[i].key)
  {
    forall i | 0 <= i < |ms| ensures ms[i].key in FieldsOf(ms) {
      IndexIs(ms, ms[i].key, i);
      FieldsAre(ms, ms[i].key);
    }
    EveryFieldIsAMember(ms);
    hide FieldsOf, Keyed;
    if |ms| == |ns| && forall i :: 0 <= i < |ms| ==> FieldAgrees(ms, ns, ms[i].key) {
      forall key | key in FieldsOf(ms) ensures FieldAgrees(ms, ns, key) {
        var i :| 0 <= i < |ms| && ms[i].key == key;
      }
      assert FieldsOf(ms).Keys <= FieldsOf(ns).Keys;
      SameKeysIf(FieldsOf(ms).Keys, FieldsOf(ns).Keys);
    }
  }

  lemma {:induction false} EveryFieldIsAMember(ms: seq<Member>)
    requires Keyed(Object(ms))
    ensures forall key :: key in FieldsOf(ms) ==> exists i :: 0 <= i < |ms| && ms[i].key == key
  {
    forall key | key in FieldsOf(ms) ensures exists i :: 0 <= i < |ms| && ms[i].key == key {
      FieldsAre(ms, key);
      assert ms[MemberIndex(ms, key)].key == key;
    }
  }

  /** A value equals itself unless there is a number that is none in it. */
  lemma {:induction false} SameAsItselfIff(v: Value)
    requires Keyed(v)
    ensures SameValue(v, v) <==> !HasNoNumber(v)
    decreases v
  {
    match v
    case List(xs) =>
      forall i | 0 <= i < |xs| ensures SameValue(xs[i], xs[i]) <==> !HasNoNumber(xs[i]) {
        SameAsItselfIff(xs[i]);
      }
    case Object(ms) =>
      forall i | 0 <= i < |ms|
        ensures MemberIndex(ms, ms[i].key) == i && (SameValue(ms[i].value, ms[i].value) <==> !HasNoNumber(ms[i].value))
      {
        IndexIs(ms, ms[i].key, i);
        SameAsItselfIff(ms[i].value);
      }
    case _ =>
  }

  /** A date in UTC equals two strings that are not equal to each other. */
  lemma {:induction false} DatesAreNotTransitive(s: string)
    requires s != []
    ensures var d, z, o := Stamp(DateTime, s + ['Z']), Text(s + ['Z']), Text(s + UTC);
            && SameValue(z, d) && SameValue(d, o) && SameValue(o, d) && !SameValue(z, o)
  {
    var z, o := s + ['Z'], s + UTC;
    assert o[|o| - |UTC|..] == UTC && o[..|o| - |UTC|] == s && z[..|z| - 1] == s;
    assert |z| != |o|;
  }
}
