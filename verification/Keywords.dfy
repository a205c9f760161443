/** The keywords of a schema, each by what it demands of keys and items. */
module Keywords {
  import opened Document
  import opened Values
  import opened Schemas

  ghost function KeysOf(ms: seq<Member>): set<string> {
    set m | m in ms :: m.key
  }

  lemma {:induction false} HasKeyMeans(ms: seq<Member>, key: string)
    ensures HasKey(ms, key) <==> key in KeysOf(ms)
  {
    if key in KeysOf(ms) {
      var m :| m in ms && m.key == key;
      var i :| 0 <= i < |ms| && ms[i] == m;
    }
    if i :| 0 <= i < |ms| && ms[i].key == key {
      assert ms[i] in ms;
    }
  }

  /** The first schema listed under the key is the one that counts. */
  ghost predicate IsFirst(ps: seq<Named>, p: nat, key: string) {
    p < |ps| && ps[p].name == key && forall q :: 0 <= q < p ==> ps[q].name != key
  }

  /** `properties`, `patternProperties` and `additionalProperties` of one member. */
  ghost predicate MemberFits(n: Schema, m: Member) {
    && (forall p: nat :: IsFirst(n.props, p, m.key) ==> Accepts(n.props[p].schema, m.value))
    && (forall x | x in n.patternProps :: x.test(m.key) ==> Accepts(x.schema, m.value))
    && (n.additional.Just? && (forall p | p in n.props :: p.name != m.key)
        && (forall x | x in n.patternProps :: !x.test(m.key))
        ==> Accepts(n.additional.value, m.value))
  }

  lemma {:induction false} MemberMeans(n: Schema, m: Member)
    ensures AcceptsMember(n, m) <==> MemberFits(n, m)
  {
    var p := NameIndex(n.props, m.key);
    forall q: nat | IsFirst(n.props, q, m.key) ensures q == p {
      assert !(q < p) && !(p < q);
    }
    assert p < |n.props| ==> IsFirst(n.props, p, m.key) && n.props[p] in n.props;
    KnownMeans(n, m.key);
    hide Accepts;
    if AcceptsMember(n, m) {
      forall x | x in n.patternProps && x.test(m.key) ensures Accepts(x.schema, m.value) {
        var q :| 0 <= q < |n.patternProps| && n.patternProps[q] == x;
      }
    }
    if MemberFits(n, m) {
      forall q | 0 <= q < |n.patternProps| && n.patternProps[q].test(m.key)
        ensures Accepts(n.patternProps[q].schema, m.value)
      {
        assert n.patternProps[q] in n.patternProps;
      }
    }
  }

  lemma {:induction false} KnownMeans(n: Schema, key: string)
    ensures !IsKnown(n, key) <==>
              (forall p | p in n.props :: p.name != key) && (forall x | x in n.patternProps :: !x.test(key))
  {
    var i := NameIndex(n.props, key);
    if i < |n.props| {
      assert n.props[i] in n.props;
    }
    if q :| 0 <= q < |n.patternProps| && n.patternProps[q].test(key) {
      assert n.patternProps[q] in n.patternProps;
    }
    if x :| x in n.patternProps && x.test(key) {
      var q :| 0 <= q < |n.patternProps| && n.patternProps[q] == x;
    }
  }

  ghost predicate InBounds(count: int, min: Maybe<int>, max: Maybe<int>) {
    (min.Just? ==> min.value <= count) && (max.Just? ==> count <= max.value)
  }

  /** What a schema demands of an object: the number of its members, the keys it
      has to have, each member, the keys as texts, and what some keys entail. */
  lemma {:induction false} ObjectMeans(n: Schema, ms: seq<Member>)
    ensures AcceptsMembers(n, Object(ms)) <==>
              && InBounds(|ms|, n.minProps, n.maxProps)
              && (forall k | k in n.required :: k in KeysOf(ms))
              && (forall m | m in ms :: MemberFits(n, m))
              && (n.propNames.Just? ==> forall k | k in KeysOf(ms) :: Accepts(n.propNames.value, Text(k)))
              && (forall d | d in n.depRequired :: DependentsPresent(d, ms))
              && (forall d | d in n.depSchemas :: d.name in KeysOf(ms) ==> Accepts(d.schema, Object(ms)))
  {
    hide Accepts, MemberFits, AcceptsMember, DependentsPresent;
    RequiredMeans(ms, n.required);
    forall i | 0 <= i < |ms| ensures ms[i].key in KeysOf(ms) {
      assert ms[i] in ms;
    }
    MembersMean(n, ms);
    if n.propNames.Just? {
      NamesMean(n, ms);
    }
    DependentKeysMean(n, ms);
    DependentSchemasMean(n, ms);
  }

  lemma {:induction false} RequiredMeans(ms: seq<Member>, keys: seq<string>)
    ensures HasAll(ms, keys) <==> forall k | k in keys :: k in KeysOf(ms)
  {
    forall r | 0 <= r < |keys| ensures HasKey(ms, keys[r]) <==> keys[r] in KeysOf(ms) {
      HasKeyMeans(ms, keys[r]);
    }
    if HasAll(ms, keys) {
      forall k | k in keys ensures k in KeysOf(ms) {
        var r :| 0 <= r < |keys| && keys[r] == k;
        assert HasKey(ms, keys[r]);
      }
    }
  }

  lemma {:induction false} MembersMean(n: Schema, ms: seq<Member>)
    ensures (forall m :: 0 <= m < |ms| ==> AcceptsMember(n, ms[m])) <==> forall m | m in ms :: MemberFits(n, m)
  {
    hide AcceptsMember, MemberFits;
    forall m | m in ms ensures AcceptsMember(n, m) <==> MemberFits(n, m) {
      MemberMeans(n, m);
    }
    if forall m :: 0 <= m < |ms| ==> AcceptsMember(n, ms[m]) {
      forall m | m in ms ensures MemberFits(n, m) {
        var i :| 0 <= i < |ms| && ms[i] == m;
      }
    }
  }

  lemma {:induction false} NamesMean(n: Schema, ms: seq<Member>)
    requires n.propNames.Just?
    ensures (forall m :: 0 <= m < |ms| ==> Accepts(n.propNames.value, Text(ms[m].key))) <==>
              forall k | k in KeysOf(ms) :: Accepts(n.propNames.value, Text(k))
  {
    hide Accepts;
    if forall k | k in KeysOf(ms) :: Accepts(n.propNames.value, Text(k)) {
      forall m | 0 <= m < |ms| ensures Accepts(n.propNames.value, Text(ms[m].key)) {
        assert ms[m] in ms;
      }
    }
    if forall m :: 0 <= m < |ms| ==> Accepts(n.propNames.value, Text(ms[m].key)) {
      forall k | k in KeysOf(ms) ensures Accepts(n.propNames.value, Text(k)) {
        var x :| x in ms && x.key == k;
        var m :| 0 <= m < |ms| && ms[m] == x;
      }
    }
  }

  /** If the key is there, so are those it requires. */
  ghost predicate DependentsPresent(d: Dependency, ms: seq<Member>) {
    d.key in KeysOf(ms) ==> forall k | k in d.required :: k in KeysOf(ms)
  }

  lemma {:induction false} DependentKeysMean(n: Schema, ms: seq<Member>)
    ensures (forall d :: 0 <= d < |n.depRequired| && HasKey(ms, n.depRequired[d].key) ==>
              HasAll(ms, n.depRequired[d].required))
            <==> forall d | d in n.depRequired :: DependentsPresent(d, ms)
  {
    forall x | x in n.depRequired
      ensures DependentsPresent(x, ms) <==> (HasKey(ms, x.key) ==> HasAll(ms, x.required))
    {
      HasKeyMeans(ms, x.key);
      RequiredMeans(ms, x.required);
    }
    hide DependentsPresent, HasKey, HasAll;
    if forall x | x in n.depRequired :: DependentsPresent(x, ms) {
      forall d | 0 <= d < |n.depRequired| && HasKey(ms, n.depRequired[d].key)
        ensures HasAll(ms, n.depRequired[d].required)
      {
        assert n.depRequired[d] in n.depRequired;
      }
    }
    if forall d :: 0 <= d < |n.depRequired| && HasKey(ms, n.depRequired[d].key) ==>
                     HasAll(ms, n.depRequired[d].required) {
      forall x | x in n.depRequired ensures DependentsPresent(x, ms) {
        var d :| 0 <= d < |n.depRequired| && n.depRequired[d] == x;
      }
    }
  }

  lemma {:induction false} DependentSchemasMean(n: Schema, ms: seq<Member>)
    ensures (forall d :: 0 <= d < |n.depSchemas| && HasKey(ms, n.depSchemas[d].name) ==>
              Accepts(n.depSchemas[d].schema, Object(ms)))
            <==> forall d | d in n.depSchemas :: d.name in KeysOf(ms) ==> Accepts(d.schema, Object(ms))
  {
    forall x | x in n.depSchemas ensures HasKey(ms, x.name) <==> x.name in KeysOf(ms) {
      HasKeyMeans(ms, x.name);
    }
    hide HasKey, KeysOf, Accepts;
    if forall x | x in n.depSchemas :: x.name in KeysOf(ms) ==> Accepts(x.schema, Object(ms)) {
      forall d | 0 <= d < |n.depSchemas| && HasKey(ms, n.depSchemas[d].name)
        ensures Accepts(n.depSchemas[d].schema, Object(ms))
      {
        assert n.depSchemas[d] in n.depSchemas;
      }
    }
    if forall d :: 0 <= d < |n.depSchemas| && HasKey(ms, n.depSchemas[d].name) ==>
                     Accepts(n.depSchemas[d].schema, Object(ms)) {
      forall x | x in n.depSchemas && x.name in KeysOf(ms) ensures Accepts(x.schema, Object(ms)) {
        var d :| 0 <= d < |n.depSchemas| && n.depSchemas[d] == x;
      }
    }
  }

  /** The schema that the item at a position has to satisfy, if any: that of the
      tuple, then `items`, then `additionalItems`. */
  ghost predicate ItemFits(n: Schema, i: nat, x: Value) {
    && (i < |n.prefixItems| ==> Accepts(n.prefixItems[i], x))
    && (i >= |n.prefixItems| && n.rest.Just? ==> Accepts(n.rest.value, x))
    && (i >= |n.prefixItems| && n.rest.Nothing? && n.addItems.Just? ==> Accepts(n.addItems.value, x))
  }

  /** The positions of the items that a schema accepts. */
  ghost function HitsOf(m: Schema, xs: seq<Value>): set<nat> {
    set i: nat | i < |xs| && Accepts(m, xs[i])
  }

  /** What a schema demands of a list: the number of its items, that no two denote
      the same, each item, and how many satisfy `contains` - one at least unless
      another number is given. */
  lemma {:induction false} ListMeans(n: Schema, xs: seq<Value>)
    requires n.unique ==> Comparable(xs)
    ensures AcceptsItems(n, xs) <==>
              && InBounds(|xs|, n.minItems, n.maxItems)
              && (n.unique ==> NoTwoAlike(xs))
              && (forall i :: 0 <= i < |xs| ==> ItemFits(n, i, xs[i]))
              && (n.contains.Just? ==>
                    InBounds(|HitsOf(n.contains.value, xs)|,
                             if n.minContains.Just? then n.minContains else Just(1), n.maxContains))
  {
    if n.unique {
      UniqueMeans(xs);
    }
    hide Accepts, NoTwoAlike, AllDifferent, Comparable;
    forall i | 0 <= i < |xs| ensures AcceptsItem(n, i, xs[i]) <==> ItemFits(n, i, xs[i]) {
    }
    if n.contains.Just? {
      ContainsMeans(n, xs);
    }
  }

  lemma {:induction false} ContainsMeans(n: Schema, xs: seq<Value>)
    requires n.contains.Just?
    ensures AcceptsContains(n, xs) <==>
              InBounds(|HitsOf(n.contains.value, xs)|,
                             if n.minContains.Just? then n.minContains else Just(1), n.maxContains)
  {
    hide Accepts;
    var hits := Satisfying(n.contains.value, xs, |xs|);
    assert hits == HitsOf(n.contains.value, xs);
    AllAtMost(hits, |xs|);
  }

  lemma {:induction false} AllAtMost(s: set<nat>, n: nat)
    requires forall i :: i in s ==> i < n
    ensures |s| <= n
  {
    if n == 0 {
      assert s == {};
    } else {
      AllAtMost(s - {n - 1}, n - 1);
    }
  }
}
