/** Schemas without references, and what it means for a value to be accepted.

    Tests of single values (type, range, length, format, pattern, enumeration)
    are opaque: a schema carries them as predicates. */
module Schemas {
  import opened Document
  import opened Values

  type Test = Value -> bool

  datatype Named = Named(name: string, schema: Schema)

  datatype PatternNamed = PatternNamed(test: string -> bool, schema: Schema)

  datatype Dependency = Dependency(key: string, required: seq<string>)

  datatype Schema = Schema(
    isFalse: bool,
    tests: seq<Test>,
    minProps: Maybe<int>,
    maxProps: Maybe<int>,
    required: seq<string>,
    props: seq<Named>,
    patternProps: seq<PatternNamed>,
    additional: Maybe<Schema>,
    propNames: Maybe<Schema>,
    depRequired: seq<Dependency>,
    depSchemas: seq<Named>,
    minItems: Maybe<int>,
    maxItems: Maybe<int>,
    unique: bool,
    prefixItems: seq<Schema>,
    rest: Maybe<Schema>,
    addItems: Maybe<Schema>,
    contains: Maybe<Schema>,
    minContains: Maybe<int>,
    maxContains: Maybe<int>,
    allOf: seq<Schema>,
    anyOf: seq<Schema>,
    oneOf: seq<Schema>,
    notS: Maybe<Schema>,
    ifS: Maybe<Schema>,
    thenS: Maybe<Schema>,
    elseS: Maybe<Schema>)

  predicate HasKey(ms: seq<Member>, key: string) {
    exists m :: 0 <= m < |ms| && ms[m].key == key
  }

  predicate HasAll(ms: seq<Member>, keys: seq<string>) {
    forall r :: 0 <= r < |keys| ==> HasKey(ms, keys[r])
  }

  /** The first schema with that name, or their number. */
  function NameIndex(ps: seq<Named>, key: string): (p: nat)
    ensures p <= |ps| && (p < |ps| ==> ps[p].name == key)
    ensures forall q :: 0 <= q < p ==> ps[q].name != key
  {
    if ps == [] then 0 else if ps[0].name == key then 0 else 1 + NameIndex(ps[1..], key)
  }

  predicate AllDifferent(xs: seq<Value>) {
    forall i, k :: 0 <= i < k < |xs| ==> !SameValue(xs[i], xs[k])
  }

  /** No two items denote the same. */
  ghost predicate NoTwoAlike(xs: seq<Value>) {
    forall i, k :: 0 <= i < k < |xs| ==> Denotes(xs[i]) != Denotes(xs[k])
  }

  /** Lists on whose items equality is what the items denote. */
  ghost predicate Comparable(xs: seq<Value>) {
    Keyed(List(xs)) && !HasNoNumber(List(xs)) && !(HasText(List(xs)) && HasStamp(List(xs)))
  }

  /** Unique items are items of which no two denote the same. */
  lemma {:induction false} UniqueMeans(xs: seq<Value>)
    requires Comparable(xs)
    ensures AllDifferent(xs) <==> NoTwoAlike(xs)
  {
    forall i, k | 0 <= i < k < |xs| ensures SameValue(xs[i], xs[k]) <==> Denotes(xs[i]) == Denotes(xs[k]) {
      SameIffDenotesSame(xs[i], xs[k]);
    }
  }

  predicate Within(n: int, min: Maybe<int>, max: Maybe<int>) {
    (min.Just? ==> n >= min.value) && (max.Just? ==> n <= max.value)
  }

  // -------------------------------------------------------------- acceptance

  /** JSON Schema Core 2020-12, sections 10.2 and 10.3: the value satisfies every
      keyword of the schema. */
  ghost predicate Accepts(n: Schema, v: Value)
    decreases n, 2
  {
    && !n.isFalse
    && (forall t :: 0 <= t < |n.tests| ==> n.tests[t](v))
    && (v.Object? ==> AcceptsMembers(n, v))
    && (v.List? ==> AcceptsItems(n, v.items))
    && AcceptsCombined(n, v)
  }

  ghost predicate AcceptsMembers(n: Schema, v: Value)
    requires v.Object?
    decreases n, 1
  {
    var ms := v.members;
    && Within(|ms|, n.minProps, n.maxProps)
    && HasAll(ms, n.required)
    && (forall m :: 0 <= m < |ms| ==> AcceptsMember(n, ms[m]))
    && (n.propNames.Just? ==> forall m :: 0 <= m < |ms| ==> Accepts(n.propNames.value, Text(ms[m].key)))
    && (forall d :: 0 <= d < |n.depRequired| && HasKey(ms, n.depRequired[d].key) ==>
      HasAll(ms, n.depRequired[d].required))
    && (forall d :: 0 <= d < |n.depSchemas| && HasKey(ms, n.depSchemas[d].name) ==> Accepts(n.depSchemas[d].schema, v))
  }

  /** A member satisfies the schema of its name, those of the patterns it
      matches, and the additional one when it has neither. */
  ghost predicate AcceptsMember(n: Schema, m: Member)
    decreases n, 0
  {
    var p := NameIndex(n.props, m.key);
    && (p < |n.props| ==> Accepts(n.props[p].schema, m.value))
    && (forall q :: 0 <= q < |n.patternProps| && n.patternProps[q].test(m.key) ==>
      Accepts(n.patternProps[q].schema, m.value))
    && (!IsKnown(n, m.key) && n.additional.Just? ==> Accepts(n.additional.value, m.value))
  }

  predicate IsKnown(n: Schema, key: string) {
    NameIndex(n.props, key) < |n.props| || exists q :: 0 <= q < |n.patternProps| && n.patternProps[q].test(key)
  }

  ghost predicate AcceptsItems(n: Schema, xs: seq<Value>)
    decreases n, 1
  {
    && Within(|xs|, n.minItems, n.maxItems)
    && (n.unique ==> AllDifferent(xs))
    && (forall i :: 0 <= i < |xs| ==> AcceptsItem(n, i, xs[i]))
    && (n.contains.Just? ==> AcceptsContains(n, xs))
  }

  ghost predicate AcceptsItem(n: Schema, i: nat, x: Value)
    decreases n, 0
  {
    if i < |n.prefixItems| then Accepts(n.prefixItems[i], x)
    else if n.rest.Just? then Accepts(n.rest.value, x)
    else if n.addItems.Just? then Accepts(n.addItems.value, x)
    else true
  }

  /** The number of items that satisfy `contains` is between the bounds: one and
      all, unless given. */
  ghost predicate AcceptsContains(n: Schema, xs: seq<Value>)
    requires n.contains.Just?
    decreases n, 0
  {
    var hits := |Satisfying(n.contains.value, xs, |xs|)|;
    (if n.minContains.Just? then n.minContains.value else 1) <= hits
    <= (if n.maxContains.Just? then n.maxContains.value else |xs|)
  }

  /** The positions, of the first `k`, whose items are accepted. */
  ghost function Satisfying(n: Schema, xs: seq<Value>, k: nat): set<nat>
    requires k <= |xs|
    decreases n, 3
  {
    set i: nat | i < k && Accepts(n, xs[i])
  }

  ghost predicate AcceptsCombined(n: Schema, v: Value)
    decreases n, 1
  {
    && (forall i :: 0 <= i < |n.allOf| ==> Accepts(n.allOf[i], v))
    && (n.anyOf != [] ==> exists i :: 0 <= i < |n.anyOf| && Accepts(n.anyOf[i], v))
    && (n.oneOf != [] ==> ExactlyOne(n, v))
    && (n.notS.Just? ==> !Accepts(n.notS.value, v))
    && (n.ifS.Just? ==> if Accepts(n.ifS.value, v) then AcceptsThen(n, v) else AcceptsElse(n, v))
  }

  ghost predicate ExactlyOne(n: Schema, v: Value)
    decreases n, 0
  {
    exists i :: 0 <= i < |n.oneOf| && Accepts(n.oneOf[i], v)
                && forall k :: 0 <= k < |n.oneOf| && Accepts(n.oneOf[k], v) ==> k == i
  }

  ghost predicate AcceptsThen(n: Schema, v: Value)
    decreases n, 0
  {
    n.thenS.Just? ==> Accepts(n.thenS.value, v)
  }

  ghost predicate AcceptsElse(n: Schema, v: Value)
    decreases n, 0
  {
    n.elseS.Just? ==> Accepts(n.elseS.value, v)
  }

  // -------------------------------------------------------------- positions

  datatype Seg = KeySeg(key: string) | IndexSeg(index: nat)

  type Path = seq<Seg>

  /** The schema rejects the value for what is at the path: it rejects it there,
      or a schema that it applies there or further out does. */
  ghost predicate Blames(n: Schema, v: Value, path: Path)
    decreases n, 1
  {
    || (path == [] && !Accepts(n, v))
    || (exists i :: 0 <= i < |n.allOf| && Blames(n.allOf[i], v, path))
    || (n.ifS.Just? && Accepts(n.ifS.value, v) && n.thenS.Just? && Blames(n.thenS.value, v, path))
    || (n.ifS.Just? && !Accepts(n.ifS.value, v) && n.elseS.Just? && Blames(n.elseS.value, v, path))
    || (path != [] && BlamesChild(n, v, path[0], path[1..]))
  }

  ghost predicate BlamesChild(n: Schema, v: Value, seg: Seg, path: Path)
    decreases n, 0, 1
  {
    match seg
    case KeySeg(k) =>
      v.Object? && exists m :: 0 <= m < |v.members| && v.members[m].key == k && BlamesMember(n, v.members[m], path)
    case IndexSeg(i) => v.List? && i < |v.items| && BlamesItem(n, i, v.items[i], path)
  }

  ghost predicate BlamesMember(n: Schema, m: Member, path: Path)
    decreases n, 0, 0
  {
    var p := NameIndex(n.props, m.key);
    || (p < |n.props| && Blames(n.props[p].schema, m.value, path))
    || (exists q :: 0 <= q < |n.patternProps| && n.patternProps[q].test(m.key)
                    && Blames(n.patternProps[q].schema, m.value, path))
    || (!IsKnown(n, m.key) && n.additional.Just? && Blames(n.additional.value, m.value, path))
  }

  ghost predicate BlamesItem(n: Schema, i: nat, x: Value, path: Path)
    decreases n, 0, 0
  {
    if i < |n.prefixItems| then Blames(n.prefixItems[i], x, path)
    else if n.rest.Just? then Blames(n.rest.value, x, path)
    else n.addItems.Just? && Blames(n.addItems.value, x, path)
  }

  /** The path leads to something inside the value. */
  predicate Points(v: Value, path: Path)
    decreases path
  {
    path == [] ||
    match path[0]
    case KeySeg(k) =>
      v.Object? && exists m :: 0 <= m < |v.members| && v.members[m].key == k && Points(v.members[m].value, path[1..])
    case IndexSeg(i) => v.List? && i < |v.items| && Points(v.items[i], path[1..])
  }

  /** How deep a value is nested. */
  function Height(v: Value): nat
    decreases v, 0
  {
    match v
    case Object(ms) => 1 + MembersHeight(ms)
    case List(xs) => 1 + ItemsHeight(xs)
    case _ => 0
  }

  function MembersHeight(ms: seq<Member>): (h: nat)
    ensures forall m :: 0 <= m < |ms| ==> Height(ms[m].value) <= h
    decreases ms, 0
  {
    if ms == [] then 0
    else
      var last, before := Height(ms[|ms| - 1].value), MembersHeight(ms[..|ms| - 1]);
      if last > before then last else before
  }

  function ItemsHeight(xs: seq<Value>): (h: nat)
    ensures forall i :: 0 <= i < |xs| ==> Height(xs[i]) <= h
    decreases xs, 0
  {
    if xs == [] then 0
    else
      var last, before := Height(xs[|xs| - 1]), ItemsHeight(xs[..|xs| - 1]);
      if last > before then last else before
  }

  /** `x` is what `seg` leads to in `v`. */
  predicate IsChild(v: Value, seg: Seg, x: Value) {
    match seg
    case KeySeg(k) => v.Object? && exists m :: 0 <= m < |v.members| && v.members[m] == Member(k, x)
    case IndexSeg(i) => v.List? && i < |v.items| && v.items[i] == x
  }

  lemma {:induction false} ChildIsLower(v: Value, seg: Seg, x: Value)
    requires IsChild(v, seg, x)
    ensures Height(x) < Height(v)
  {
  }

  /** A schema blames a value only for what it rejects it for: it does reject it,
      and the path leads into it. */
  lemma {:induction false} BlamedIsRejected(n: Schema, v: Value, path: Path)
    requires Blames(n, v, path)
    ensures !Accepts(n, v) && Points(v, path)
    decreases n
  {
    if path != [] && BlamesChild(n, v, path[0], path[1..]) {
      ChildIsRejected(n, v, path);
    } else if i :| 0 <= i < |n.allOf| && Blames(n.allOf[i], v, path) {
      BlamedIsRejected(n.allOf[i], v, path);
    } else if n.ifS.Just? && Accepts(n.ifS.value, v) && n.thenS.Just? && Blames(n.thenS.value, v, path) {
      BlamedIsRejected(n.thenS.value, v, path);
      assert !AcceptsThen(n, v);
    } else if n.ifS.Just? && !Accepts(n.ifS.value, v) && n.elseS.Just? && Blames(n.elseS.value, v, path) {
      BlamedIsRejected(n.elseS.value, v, path);
      assert !AcceptsElse(n, v);
    }
  }

  lemma {:induction false} ChildIsRejected(n: Schema, v: Value, path: Path)
    requires path != [] && BlamesChild(n, v, path[0], path[1..])
    ensures !Accepts(n, v) && Points(v, path)
    decreases n, 1
  {
    match path[0]
    case KeySeg(k) =>
      var m :| 0 <= m < |v.members| && v.members[m].key == k && BlamesMember(n, v.members[m], path[1..]);
      MemberIsRejected(n, v.members[m], path[1..]);
    case IndexSeg(i) =>
      ItemIsRejected(n, i, v.items[i], path[1..]);
  }

  lemma {:induction false} MemberIsRejected(n: Schema, m: Member, path: Path)
    requires BlamesMember(n, m, path)
    ensures !AcceptsMember(n, m) && Points(m.value, path)
    decreases n, 0
  {
    var p := NameIndex(n.props, m.key);
    if p < |n.props| && Blames(n.props[p].schema, m.value, path) {
      BlamedIsRejected(n.props[p].schema, m.value, path);
    } else if q :| 0 <= q < |n.patternProps| && n.patternProps[q].test(m.key)
                   && Blames(n.patternProps[q].schema, m.value, path) {
      BlamedIsRejected(n.patternProps[q].schema, m.value, path);
    } else {
      BlamedIsRejected(n.additional.value, m.value, path);
    }
  }

  lemma {:induction false} ItemIsRejected(n: Schema, i: nat, x: Value, path: Path)
    requires BlamesItem(n, i, x, path)
    ensures !AcceptsItem(n, i, x) && Points(x, path)
    decreases n, 0
  {
    if i < |n.prefixItems| {
      BlamedIsRejected(n.prefixItems[i], x, path);
    } else if n.rest.Just? {
      BlamedIsRejected(n.rest.value, x, path);
    } else {
      BlamedIsRejected(n.addItems.value, x, path);
    }
  }
}
