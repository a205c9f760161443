/** The validation walk.  Failures are counted as pings; a trial walks a branch
    muted and takes its pings back, so that nothing but the verdict is left. */
module Validator {
  import opened Document
  import opened Values
  import opened Schemas

  datatype Complaint =
    | FalseSchema | TestFails | TooFewProperties | TooManyProperties | MissingProperty | UnknownProperty
    | BadPropertyName | MissingDependency | DependencyFails
    | TooFewItems | TooManyItems | NotUnique | BeyondTuple | TooFewContained | TooManyContained
    | NoneOfAny | NotExactlyOne | MatchesNot

  datatype Report = Report(path: Path, complaint: Complaint)

  const MAX_REPORTS: nat := 256
  const MAX_PATH: nat := 128
  const MAX_DEPTH: nat := 512

  /** The fields of the walk at one moment. */
  datatype Snap = Snap(pings: nat, mute: nat, reports: seq<Report>, truncated: bool, path: Path)

  predicate Fits(path: Path, v: Value) {
    |path| + Height(v) <= MAX_PATH
  }

  /** From `a` to `b` the walk has judged (part of) `v`, and found it right
      exactly when `ok`:

      - it has pinged exactly when it found something wrong, and is as mute as
        it was;
      - muted, it has recorded nothing; otherwise a report for every ping, as
        long as there is room, and the truncation flag says whether there was;
      - the path is what it was, and new reports lead into `v`, if all of `v`
        fits on the path stack; otherwise some of the path may be lost. */
  ghost predicate Effect(a: Snap, b: Snap, ok: bool, n: Schema, v: Value) {
    && a.pings <= b.pings && (b.pings == a.pings <==> ok) && b.mute == a.mute
    && Recorded(a, b)
    && |b.path| <= |a.path| && b.path == a.path[..|b.path|]
    && (Fits(a.path, v) ==> b.path == a.path && ReportsLead(a, b, n, v))
  }

  ghost predicate Recorded(a: Snap, b: Snap) {
    if a.mute > 0 then b.reports == a.reports && b.truncated == a.truncated
    else
      && |a.reports| <= |b.reports| && a.reports == b.reports[..|a.reports|]
      && (|a.reports| <= MAX_REPORTS ==>
            && |b.reports| == Min(MAX_REPORTS, |a.reports| + (b.pings - a.pings))
            && b.truncated == (a.truncated || |a.reports| + (b.pings - a.pings) > MAX_REPORTS))
  }

  ghost predicate ReportsLead(a: Snap, b: Snap, n: Schema, v: Value)
    requires |a.reports| <= |b.reports|
  {
    forall r :: |a.reports| <= r < |b.reports| ==> LeadsInto(b.reports[r].path, a.path, n, v)
  }

  ghost predicate LeadsInto(path: Path, from: Path, n: Schema, v: Value) {
    |from| <= |path| && path[..|from|] == from && Blames(n, v, path[|from|..])
  }

  function Min(a: int, b: int): int {
    if a < b then a else b
  }

  lemma {:induction false} NoEffect(a: Snap, n: Schema, v: Value)
    requires |a.reports| <= MAX_REPORTS
    ensures Effect(a, a, true, n, v)
  {
  }

  lemma {:induction false} Then(a: Snap, b: Snap, c: Snap, ok: bool, next: bool, n: Schema, v: Value)
    requires Effect(a, b, ok, n, v) && Effect(b, c, next, n, v) && |a.reports| <= MAX_REPORTS
    ensures Effect(a, c, ok && next, n, v)
  {
    hide Blames;
    assert Fits(a.path, v) ==> Fits(b.path, v);
  }

  /** What `m` blames in `x` at some path, `n` blames in `v` behind `seg`. */
  ghost predicate Answers(n: Schema, v: Value, seg: Seg, m: Schema, x: Value) {
    IsChild(v, seg, x) && forall p: Path :: Blames(m, x, p) ==> Blames(n, v, [seg] + p)
  }

  /** Judging a child, with its segment on the path. */
  lemma {:induction false} ChildJudged(a: Snap, b: Snap, c: Snap, d: Snap, ok: bool, n: Schema, v: Value, seg: Seg,
                                       m: Schema, x: Value)
    requires Answers(n, v, seg, m, x) && Effect(b, c, ok, m, x)
    requires b == a.(path := Pushed(a.path, seg)) && d == c.(path := Popped(c.path))
    ensures Effect(a, d, ok, n, v)
  {
    hide Blames;
    ChildIsLower(v, seg, x);
    if Fits(a.path, v) {
      assert b.path == a.path + [seg] && Fits(b.path, x);
      PushThenPop(a.path, seg);
      forall r | |a.reports| <= r < |d.reports| ensures LeadsInto(d.reports[r].path, a.path, n, v) {
        LeadsThroughChild(d.reports[r].path, a.path, n, v, seg, m, x);
      }
    }
  }

  lemma {:induction false} LeadsThroughChild(p: Path, from: Path, n: Schema, v: Value, seg: Seg, m: Schema, x: Value)
    requires Answers(n, v, seg, m, x) && LeadsInto(p, from + [seg], m, x)
    ensures LeadsInto(p, from, n, v)
  {
    hide Blames;
    var k := |from|;
    assert p[..k] == p[..k + 1][..k] && p[k] == p[..k + 1][k];
    assert p[k..] == [seg] + p[k + 1..];
  }

  /** Judging the same value by a part of the schema. */
  lemma {:induction false} PartJudged(a: Snap, b: Snap, ok: bool, n: Schema, v: Value, m: Schema)
    requires Effect(a, b, ok, m, v) && forall p: Path :: Blames(m, v, p) ==> Blames(n, v, p)
    ensures Effect(a, b, ok, n, v)
  {
    hide Blames;
  }

  /** Popping undoes a push exactly while the path stack has room: past its
      limit every pop takes a segment that was never pushed on top. */
  lemma {:induction false} PushThenPop(path: Path, seg: Seg)
    requires |path| <= MAX_PATH
    ensures Popped(Pushed(path, seg)) == path <==> |path| < MAX_PATH
  {
    if |path| < MAX_PATH {
      assert (path + [seg])[..|path|] == path;
    } else {
      assert |Popped(path)| < |path|;
    }
  }

  /** A member of something 128 deep: the pop takes a segment further out. */
  lemma {:induction false} PathDrifts(path: Path, seg: Seg)
    requires |path| == MAX_PATH
    ensures Popped(Pushed(path, seg)) == path[..MAX_PATH - 1] != path
  {
  }

  function Pushed(path: Path, seg: Seg): Path {
    if |path| >= MAX_PATH then path else path + [seg]
  }

  function Popped(path: Path): Path {
    if path == [] then path else path[..|path| - 1]
  }

  /** A trial's leftovers: at most a shorter path. */
  lemma {:induction false} Tried(a: Snap, b: Snap, c: Snap, d: Snap, ok: bool, m: Schema, n: Schema, v: Value)
    requires |a.reports| <= MAX_REPORTS
    requires b == a.(mute := a.mute + 1) && Effect(b, c, ok, m, v) && d == c.(mute := c.mute - 1, pings := a.pings)
    ensures Effect(a, d, true, n, v) && d == a.(path := d.path)
  {
    hide Blames;
  }

  // ------------------------------------------------- what a child answers for

  lemma {:induction false} NamedAnswers(n: Schema, v: Value, i: nat, p: nat)
    requires v.Object? && i < |v.members| && p == NameIndex(n.props, v.members[i].key) < |n.props|
    ensures Answers(n, v, KeySeg(v.members[i].key), n.props[p].schema, v.members[i].value)
  {
    MemberAnswers(n, v, i, n.props[p].schema);
  }

  lemma {:induction false} PatternAnswers(n: Schema, v: Value, i: nat, q: nat)
    requires v.Object? && i < |v.members| && q < |n.patternProps| && n.patternProps[q].test(v.members[i].key)
    ensures Answers(n, v, KeySeg(v.members[i].key), n.patternProps[q].schema, v.members[i].value)
  {
    MemberAnswers(n, v, i, n.patternProps[q].schema);
  }

  lemma {:induction false} AdditionalAnswers(n: Schema, v: Value, i: nat)
    requires v.Object? && i < |v.members| && !IsKnown(n, v.members[i].key) && n.additional.Just?
    ensures Answers(n, v, KeySeg(v.members[i].key), n.additional.value, v.members[i].value)
  {
    MemberAnswers(n, v, i, n.additional.value);
  }

  lemma {:induction false} MemberAnswers(n: Schema, v: Value, i: nat, m: Schema)
    requires v.Object? && i < |v.members|
    requires forall p: Path :: Blames(m, v.members[i].value, p) ==> BlamesMember(n, v.members[i], p)
    ensures Answers(n, v, KeySeg(v.members[i].key), m, v.members[i].value)
  {
    hide BlamesMember;
    var seg := KeySeg(v.members[i].key);
    assert v.members[i] == Member(seg.key, v.members[i].value);
    forall p: Path | Blames(m, v.members[i].value, p) ensures Blames(n, v, [seg] + p) {
      assert ([seg] + p)[1..] == p;
    }
  }

  /** The schema that the item at `i` is judged by. */
  function ItemSchema(n: Schema, i: nat): Maybe<Schema> {
    if i < |n.prefixItems| then Just(n.prefixItems[i]) else if n.rest.Just? then n.rest else n.addItems
  }

  lemma {:induction false} ItemAnswers(n: Schema, v: Value, i: nat)
    requires v.List? && i < |v.items|
    ensures ItemSchema(n, i).Just? ==> Answers(n, v, IndexSeg(i), ItemSchema(n, i).value, v.items[i])
  {
    if ItemSchema(n, i).Just? {
      var m := ItemSchema(n, i).value;
      forall p: Path | Blames(m, v.items[i], p) ensures Blames(n, v, [IndexSeg(i)] + p) {
        assert ([IndexSeg(i)] + p)[1..] == p;
        assert BlamesItem(n, i, v.items[i], p);
      }
    }
  }

  class Walk {
    var pings: nat
    var mute: nat
    var reports: seq<Report>
    var truncated: bool
    var path: Path

    ghost function Now(): Snap
      reads this
    {
      Snap(pings, mute, reports, truncated, path)
    }

    ghost predicate Valid()
      reads this
    {
      |reports| <= MAX_REPORTS && |path| <= MAX_PATH
    }

    constructor ()
      ensures Now() == Snap(0, 0, [], false, [])
    {
      pings, mute, reports, truncated, path := 0, 0, [], false, [];
    }

    method Complain(c: Complaint, ghost n: Schema, ghost v: Value)
      requires Valid() && !Accepts(n, v)
      modifies this
      ensures Valid() && Effect(old(Now()), Now(), false, n, v)
    {
      pings := pings + 1;
      if mute > 0 {
        return;
      }
      if |reports| >= MAX_REPORTS {
        truncated := true;
        return;
      }
      reports := reports + [Report(path, c)];
      assert path[|path|..] == [];
    }

    method PushPath(seg: Seg)
      requires Valid()
      modifies this`path
      ensures Valid() && path == Pushed(old(path), seg)
    {
      if |path| >= MAX_PATH {
        return;
      }
      path := path + [seg];
    }

    method PopPath()
      requires Valid()
      modifies this`path
      ensures Valid() && path == Popped(old(path))
    {
      if |path| > 0 {
        path := path[..|path| - 1];
      }
    }

    /** Complains unless `ok`. */
    method Require(ok: bool, c: Complaint, ghost n: Schema, ghost v: Value)
      requires Valid() && (!ok ==> !Accepts(n, v))
      modifies this
      ensures Valid() && Effect(old(Now()), Now(), ok, n, v)
    {
      NoEffect(Now(), n, v);
      if !ok {
        Complain(c, n, v);
      }
    }

    /** Judges the value by the schema. */
    method Judge(n: Schema, v: Value)
      requires Valid()
      modifies this
      ensures Valid() && Effect(old(Now()), Now(), Accepts(n, v), n, v)
      decreases n, 4
    {
      hide Effect, AcceptsMembers, AcceptsItems, AcceptsCombined;
      ghost var start := Now();
      assert |path| < MAX_DEPTH;  // the depth guard never fires: the path stack stops at MAX_PATH
      if n.isFalse {
        Complain(FalseSchema, n, v);
        return;
      }
      RunTests(n, v);
      ghost var tested := Now();
      if v.Object? {
        JudgeMembers(n, v);
      } else {
        NoEffect(Now(), n, v);
      }
      ghost var membered := Now();
      Then(start, tested, membered, TestsHold(n, v), v.Object? ==> AcceptsMembers(n, v), n, v);
      if v.List? {
        JudgeItems(n, v);
      } else {
        NoEffect(Now(), n, v);
      }
      ghost var itemed := Now();
      Then(start, membered, itemed, TestsHold(n, v) && (v.Object? ==> AcceptsMembers(n, v)),
           v.List? ==> AcceptsItems(n, v.items), n, v);
      JudgeCombined(n, v);
      Then(start, itemed, Now(), TestsHold(n, v) && (v.Object? ==> AcceptsMembers(n, v))
        && (v.List? ==> AcceptsItems(n, v.items)),
           AcceptsCombined(n, v), n, v);
    }

    ghost predicate TestsHold(n: Schema, v: Value) {
      forall t :: 0 <= t < |n.tests| ==> n.tests[t](v)
    }

    method RunTests(n: Schema, v: Value)
      requires Valid()
      modifies this
      ensures Valid() && Effect(old(Now()), Now(), TestsHold(n, v), n, v)
    {
      hide Effect;
      ghost var start := Now();
      NoEffect(start, n, v);
      var t := 0;
      while t < |n.tests|
        invariant 0 <= t <= |n.tests| && Valid()
        invariant Effect(start, Now(), forall u :: 0 <= u < t ==> n.tests[u](v), n, v)
      {
        ghost var before := Now();
        ghost var ok := forall u :: 0 <= u < t ==> n.tests[u](v);
        Require(n.tests[t](v), TestFails, n, v);
        Then(start, before, Now(), ok, n.tests[t](v), n, v);
        t := t + 1;
        assert (ok && n.tests[t - 1](v)) == forall u :: 0 <= u < t ==> n.tests[u](v);
      }
    }

    /** A muted walk for the verdict alone: its pings are taken back and nothing
        is recorded. */
    method Passes(m: Schema, v: Value, ghost n: Schema) returns (ok: bool)
      requires Valid()
      modifies this
      ensures Valid() && Effect(old(Now()), Now(), true, n, v) && ok == Accepts(m, v)
      ensures Now() == old(Now()).(path := path)
      decreases m, 5
    {
      var savedPings := pings;
      var saved := reports;
      ghost var start := Now();
      mute := mute + 1;
      ghost var muted := Now();
      Judge(m, v);
      ghost var judged := Now();
      mute := mute - 1;
      ok := pings == savedPings;
      pings := savedPings;
      if !ok {
        reports := saved;
      }
      Tried(start, muted, judged, Now(), Accepts(m, v), m, n, v);
    }

    /** Judges a child of `v`, with its segment on the path. */
    method JudgeChild(m: Schema, x: Value, seg: Seg, ghost n: Schema, ghost v: Value)
      requires Valid() && Answers(n, v, seg, m, x)
      modifies this
      ensures Valid() && Effect(old(Now()), Now(), Accepts(m, x), n, v)
      decreases m, 5
    {
      ghost var start := Now();
      PushPath(seg);
      ghost var pushed := Now();
      Judge(m, x);
      ghost var judged := Now();
      PopPath();
      ChildJudged(start, pushed, judged, Now(), Accepts(m, x), n, v, seg, m, x);
    }

    /** Judges the same value by a part of the schema. */
    method JudgePart(m: Schema, v: Value, ghost n: Schema)
      requires Valid() && forall p: Path :: Blames(m, v, p) ==> Blames(n, v, p)
      modifies this
      ensures Valid() && Effect(old(Now()), Now(), Accepts(m, v), n, v)
      decreases m, 5
    {
      ghost var start := Now();
      Judge(m, v);
      PartJudged(start, Now(), Accepts(m, v), n, v, m);
    }

    /** The two bounds on a count. */
    method CheckCount(count: int, min: Maybe<int>, max: Maybe<int>, few: Complaint, many: Complaint,
                      ghost n: Schema, ghost v: Value)
      requires Valid() && (!Within(count, min, max) ==> !Accepts(n, v))
      modifies this
      ensures Valid() && Effect(old(Now()), Now(), Within(count, min, max), n, v)
    {
      hide Effect;
      ghost var start := Now();
      Require(min.Just? ==> count >= min.value, few, n, v);
      ghost var half := Now();
      Require(max.Just? ==> count <= max.value, many, n, v);
      Then(start, half, Now(), min.Just? ==> count >= min.value, max.Just? ==> count <= max.value, n, v);
    }

    /** A complaint for every key that is missing. */
    method CheckKeys(ms: seq<Member>, keys: seq<string>, c: Complaint, ghost n: Schema, ghost v: Value)
      requires Valid() && (!HasAll(ms, keys) ==> !Accepts(n, v))
      modifies this
      ensures Valid() && Effect(old(Now()), Now(), HasAll(ms, keys), n, v)
    {
      hide Effect;
      ghost var start := Now();
      NoEffect(start, n, v);
      var r := 0;
      while r < |keys|
        invariant 0 <= r <= |keys| && Valid()
        invariant Effect(start, Now(), HasAll(ms, keys[..r]), n, v)
      {
        ghost var before := Now();
        var found := HasKeyLoop(ms, keys[r]);
        Require(found, c, n, v);
        Then(start, before, Now(), HasAll(ms, keys[..r]), found, n, v);
        assert keys[..r + 1] == keys[..r] + [keys[r]];
        assert HasAll(ms, keys[..r + 1]) <==> HasAll(ms, keys[..r]) && found;
        r := r + 1;
      }
      assert keys[..r] == keys;
    }

    method HasKeyLoop(ms: seq<Member>, key: string) returns (found: bool)
      ensures found == HasKey(ms, key)
    {
      found := false;
      var m := 0;
      while m < |ms| && !found
        invariant 0 <= m <= |ms| && found == HasKey(ms[..m], key)
      {
        if ms[m].key == key {
          found := true;
        }
        assert ms[..m + 1] == ms[..m] + [ms[m]];
        m := m + 1;
      }
      if found {
        var k :| 0 <= k < m && ms[..m][k].key == key;
        assert ms[k].key == key;
      } else {
        assert ms[..m] == ms;
      }
    }

    method JudgeMembers(n: Schema, v: Value)
      requires Valid() && v.Object?
      modifies this
      ensures Valid() && Effect(old(Now()), Now(), AcceptsMembers(n, v), n, v)
      decreases n, 3
    {
      hide Effect, AcceptsMember;
      var ms := v.members;
      ghost var s0 := Now();
      CheckCount(|ms|, n.minProps, n.maxProps, TooFewProperties, TooManyProperties, n, v);
      ghost var s1, ok1 := Now(), Within(|ms|, n.minProps, n.maxProps);
      CheckKeys(ms, n.required, MissingProperty, n, v);
      ghost var s2, ok2 := Now(), HasAll(ms, n.required);
      Then(s0, s1, s2, ok1, ok2, n, v);
      JudgeEach(n, v);
      ghost var s3, ok3 := Now(), EachAccepted(n, ms, |ms|);
      Then(s0, s2, s3, ok1 && ok2, ok3, n, v);
      JudgeNames(n, v);
      ghost var s4, ok4 := Now(), NamesAccepted(n, ms, |ms|);
      Then(s0, s3, s4, ok1 && ok2 && ok3, ok4, n, v);
      CheckDependencies(n, v);
      ghost var s5, ok5 := Now(), DependenciesHold(n.depRequired, ms, |n.depRequired|);
      Then(s0, s4, s5, ok1 && ok2 && ok3 && ok4, ok5, n, v);
      JudgeDependents(n, v);
      ghost var s6, ok6 := Now(), DependentsHold(n, v, |n.depSchemas|);
      Then(s0, s5, s6, ok1 && ok2 && ok3 && ok4 && ok5, ok6, n, v);
    }

    ghost predicate EachAccepted(n: Schema, ms: seq<Member>, k: nat) {
      forall m :: 0 <= m < |ms| && m < k ==> AcceptsMember(n, ms[m])
    }

    ghost predicate NamesAccepted(n: Schema, ms: seq<Member>, k: nat) {
      n.propNames.Just? ==> forall m :: 0 <= m < |ms| && m < k ==> Accepts(n.propNames.value, Text(ms[m].key))
    }

    predicate DependenciesHold(ds: seq<Dependency>, ms: seq<Member>, k: nat) {
      forall d :: 0 <= d < |ds| && d < k && HasKey(ms, ds[d].key) ==> HasAll(ms, ds[d].required)
    }

    ghost predicate DependentsHold(n: Schema, v: Value, k: nat)
      requires v.Object?
    {
      forall d :: 0 <= d < |n.depSchemas| && d < k && HasKey(v.members, n.depSchemas[d].name) ==>
        Accepts(n.depSchemas[d].schema, v)
    }

    method JudgeEach(n: Schema, v: Value)
      requires Valid() && v.Object?
      modifies this
      ensures Valid() && Effect(old(Now()), Now(), EachAccepted(n, v.members, |v.members|), n, v)
      decreases n, 2
    {
      hide Effect, AcceptsMember;
      ghost var start := Now();
      NoEffect(start, n, v);
      var m := 0;
      while m < |v.members|
        invariant 0 <= m <= |v.members| && Valid()
        invariant Effect(start, Now(), EachAccepted(n, v.members, m), n, v)
      {
        ghost var before := Now();
        JudgeMember(n, m, v);
        Then(start, before, Now(), EachAccepted(n, v.members, m), AcceptsMember(n, v.members[m]), n, v);
        m := m + 1;
        assert EachAccepted(n, v.members, m) <==>
               EachAccepted(n, v.members, m - 1) && AcceptsMember(n, v.members[m - 1]);
      }
    }

    ghost predicate PatternsAccept(n: Schema, m: Member, k: nat) {
      forall q :: 0 <= q < |n.patternProps| && q < k && n.patternProps[q].test(m.key) ==>
        Accepts(n.patternProps[q].schema, m.value)
    }

    predicate KnownTo(n: Schema, key: string, k: nat) {
      NameIndex(n.props, key) < |n.props|
      || exists q :: 0 <= q < |n.patternProps| && q < k && n.patternProps[q].test(key)
    }

    method FindName(ps: seq<Named>, key: string) returns (p: nat)
      ensures p == NameIndex(ps, key)
    {
      p := 0;
      while p < |ps| && ps[p].name != key
        invariant 0 <= p <= |ps| && forall q :: 0 <= q < p ==> ps[q].name != key
      {
        p := p + 1;
      }
      assert !(NameIndex(ps, key) < p) && !(p < NameIndex(ps, key));
    }

    /** One member: by its name, by every pattern it matches, and as an
        additional one if it is not known. */
    method JudgeMember(n: Schema, i: nat, v: Value)
      requires Valid() && v.Object? && i < |v.members|
      modifies this
      ensures Valid() && Effect(old(Now()), Now(), AcceptsMember(n, v.members[i]), n, v)
      decreases n, 1
    {
      hide Effect;
      var m := v.members[i];
      assert m == Member(m.key, m.value) && IsChild(v, KeySeg(m.key), m.value);
      ghost var start := Now();
      NoEffect(start, n, v);
      var p := FindName(n.props, m.key);
      var known := p < |n.props|;
      if known {
        NamedAnswers(n, v, i, p);
        JudgeChild(n.props[p].schema, m.value, KeySeg(m.key), n, v);
      }
      ghost var named, ok := Now(), p < |n.props| ==> Accepts(n.props[p].schema, m.value);
      NoEffect(named, n, v);
      var q := 0;
      while q < |n.patternProps|
        invariant 0 <= q <= |n.patternProps| && Valid() && known == KnownTo(n, m.key, q)
        invariant Effect(named, Now(), PatternsAccept(n, m, q), n, v)
      {
        ghost var before := Now();
        NoEffect(before, n, v);
        var matches := n.patternProps[q].test(m.key);
        if matches {
          known := true;
          PatternAnswers(n, v, i, q);
          JudgeChild(n.patternProps[q].schema, m.value, KeySeg(m.key), n, v);
        }
        ghost var right := matches ==> Accepts(n.patternProps[q].schema, m.value);
        Then(named, before, Now(), PatternsAccept(n, m, q), right, n, v);
        q := q + 1;
        assert PatternsAccept(n, m, q) <==> PatternsAccept(n, m, q - 1) && right;
      }
      ghost var patterned := Now();
      Then(start, named, patterned, ok, PatternsAccept(n, m, q), n, v);
      NoEffect(patterned, n, v);
      if !known && n.additional.Just? {
        AdditionalAnswers(n, v, i);
        if n.additional.value.isFalse {
          PushPath(KeySeg(m.key));
          ghost var pushed := Now();
          Complain(UnknownProperty, n.additional.value, m.value);
          ghost var complained := Now();
          PopPath();
          ChildJudged(patterned, pushed, complained, Now(), false, n, v, KeySeg(m.key), n.additional.value, m.value);
        } else {
          JudgeChild(n.additional.value, m.value, KeySeg(m.key), n, v);
        }
      }
      Then(start, patterned, Now(), ok && PatternsAccept(n, m, q),
           !known && n.additional.Just? ==> Accepts(n.additional.value, m.value), n, v);
    }

    method JudgeNames(n: Schema, v: Value)
      requires Valid() && v.Object?
      modifies this
      ensures Valid() && Effect(old(Now()), Now(), NamesAccepted(n, v.members, |v.members|), n, v)
      decreases n, 2
    {
      hide Effect;
      ghost var start := Now();
      NoEffect(start, n, v);
      if n.propNames.Just? {
        var m := 0;
        while m < |v.members|
          invariant 0 <= m <= |v.members| && Valid()
          invariant Effect(start, Now(), NamesAccepted(n, v.members, m), n, v)
        {
          ghost var before := Now();
          var ok := PassesFor(n.propNames.value, Text(v.members[m].key), n, v);
          ghost var tried := Now();
          Require(ok, BadPropertyName, n, v);
          Then(before, tried, Now(), true, ok, n, v);
          Then(start, before, Now(), NamesAccepted(n, v.members, m), ok, n, v);
          m := m + 1;
          assert NamesAccepted(n, v.members, m) <==> NamesAccepted(n, v.members, m - 1) && ok;
        }
      }
    }

    /** A trial on another value, `x`, within the judgement of `v`. */
    method PassesFor(m: Schema, x: Value, ghost n: Schema, ghost v: Value) returns (ok: bool)
      requires Valid() && Height(x) <= Height(v)
      modifies this
      ensures Valid() && Effect(old(Now()), Now(), true, n, v) && ok == Accepts(m, x)
      decreases m, 6
    {
      ok := Passes(m, x, n);
    }

    method CheckDependencies(n: Schema, v: Value)
      requires Valid() && v.Object?
      modifies this
      ensures Valid()
      ensures Effect(old(Now()), Now(), DependenciesHold(n.depRequired, v.members, |n.depRequired|), n, v)
    {
      hide Effect;
      var ds := n.depRequired;
      ghost var start := Now();
      NoEffect(start, n, v);
      var d := 0;
      while d < |ds|
        invariant 0 <= d <= |ds| && Valid()
        invariant Effect(start, Now(), DependenciesHold(ds, v.members, d), n, v)
      {
        ghost var before := Now();
        NoEffect(before, n, v);
        var present := HasKeyLoop(v.members, ds[d].key);
        if present {
          CheckKeys(v.members, ds[d].required, MissingDependency, n, v);
        }
        ghost var ok := present ==> HasAll(v.members, ds[d].required);
        Then(start, before, Now(), DependenciesHold(ds, v.members, d), ok, n, v);
        d := d + 1;
        assert DependenciesHold(ds, v.members, d) <==> DependenciesHold(ds, v.members, d - 1) && ok;
      }
    }

    method JudgeDependents(n: Schema, v: Value)
      requires Valid() && v.Object?
      modifies this
      ensures Valid() && Effect(old(Now()), Now(), DependentsHold(n, v, |n.depSchemas|), n, v)
      decreases n, 2
    {
      hide Effect;
      ghost var start := Now();
      NoEffect(start, n, v);
      var d := 0;
      while d < |n.depSchemas|
        invariant 0 <= d <= |n.depSchemas| && Valid()
        invariant Effect(start, Now(), DependentsHold(n, v, d), n, v)
      {
        ghost var before := Now();
        NoEffect(before, n, v);
        var present := HasKeyLoop(v.members, n.depSchemas[d].name);
        if present {
          var passed := Passes(n.depSchemas[d].schema, v, n);
          ghost var tried := Now();
          Require(passed, DependencyFails, n, v);
          Then(before, tried, Now(), true, passed, n, v);
        }
        ghost var ok := present ==> Accepts(n.depSchemas[d].schema, v);
        Then(start, before, Now(), DependentsHold(n, v, d), ok, n, v);
        d := d + 1;
        assert DependentsHold(n, v, d) <==> DependentsHold(n, v, d - 1) && ok;
      }
    }

    method JudgeItems(n: Schema, v: Value)
      requires Valid() && v.List?
      modifies this
      ensures Valid() && Effect(old(Now()), Now(), AcceptsItems(n, v.items), n, v)
      decreases n, 3
    {
      hide Effect, AcceptsItem, AcceptsContains;
      var xs := v.items;
      ghost var s0 := Now();
      CheckCount(|xs|, n.minItems, n.maxItems, TooFewItems, TooManyItems, n, v);
      ghost var s1, ok1 := Now(), Within(|xs|, n.minItems, n.maxItems);
      NoEffect(s1, n, v);
      if n.unique {
        CheckUnique(n, v);
      }
      ghost var s2, ok2 := Now(), n.unique ==> AllDifferent(xs);
      Then(s0, s1, s2, ok1, ok2, n, v);
      JudgeEachItem(n, v);
      ghost var s3, ok3 := Now(), ItemsAccepted(n, xs, |xs|);
      Then(s0, s2, s3, ok1 && ok2, ok3, n, v);
      NoEffect(s3, n, v);
      if n.contains.Just? {
        JudgeContains(n, v);
      }
      Then(s0, s3, Now(), ok1 && ok2 && ok3, n.contains.Just? ==> AcceptsContains(n, xs), n, v);
    }

    ghost predicate ItemsAccepted(n: Schema, xs: seq<Value>, k: nat) {
      forall i :: 0 <= i < |xs| && i < k ==> AcceptsItem(n, i, xs[i])
    }

    /** One report for the first pair of equal items. */
    method CheckUnique(ghost n: Schema, v: Value)
      requires Valid() && v.List? && n.unique
      modifies this
      ensures Valid() && Effect(old(Now()), Now(), AllDifferent(v.items), n, v)
      ensures Comparable(v.items) ==> Effect(old(Now()), Now(), NoTwoAlike(v.items), n, v)
    {
      hide Effect, SameValue, NoTwoAlike, Comparable;
      if Comparable(v.items) {
        UniqueMeans(v.items);
      }
      var xs := v.items;
      ghost var start := Now();
      NoEffect(start, n, v);
      var i := 0;
      while i < |xs|
        invariant 0 <= i <= |xs| && Valid() && Now() == start
        invariant forall a, b :: 0 <= a < i && a < b < |xs| ==> !SameValue(xs[a], xs[b])
      {
        var k := i + 1;
        while k < |xs|
          invariant i < k <= |xs| && Valid() && Now() == start
          invariant forall b :: i < b < k ==> !SameValue(xs[i], xs[b])
        {
          var same := Compare(xs[i], xs[k]);
          if same {
            Complain(NotUnique, n, v);
            return;
          }
          k := k + 1;
        }
        i := i + 1;
      }
    }

    method JudgeEachItem(n: Schema, v: Value)
      requires Valid() && v.List?
      modifies this
      ensures Valid() && Effect(old(Now()), Now(), ItemsAccepted(n, v.items, |v.items|), n, v)
      decreases n, 2
    {
      hide Effect, AcceptsItem;
      ghost var start := Now();
      NoEffect(start, n, v);
      if |n.prefixItems| > 0 || n.rest.Just? || n.addItems.Just? {
        var i := 0;
        while i < |v.items|
          invariant 0 <= i <= |v.items| && Valid()
          invariant Effect(start, Now(), ItemsAccepted(n, v.items, i), n, v)
        {
          ghost var before := Now();
          JudgeItem(n, i, v);
          Then(start, before, Now(), ItemsAccepted(n, v.items, i), AcceptsItem(n, i, v.items[i]), n, v);
          i := i + 1;
          assert ItemsAccepted(n, v.items, i) <==>
                 ItemsAccepted(n, v.items, i - 1) && AcceptsItem(n, i - 1, v.items[i - 1]);
        }
      } else {
        NothingAsked(n, v.items);
      }
    }

    lemma {:induction false} NothingAsked(n: Schema, xs: seq<Value>)
      requires n.prefixItems == [] && n.rest.Nothing? && n.addItems.Nothing?
      ensures ItemsAccepted(n, xs, |xs|)
    {
    }

    method JudgeItem(n: Schema, i: nat, v: Value)
      requires Valid() && v.List? && i < |v.items|
      modifies this
      ensures Valid() && Effect(old(Now()), Now(), AcceptsItem(n, i, v.items[i]), n, v)
      decreases n, 1
    {
      hide Effect;
      NoEffect(Now(), n, v);
      ItemAnswers(n, v, i);
      if i < |n.prefixItems| {
        JudgeChild(n.prefixItems[i], v.items[i], IndexSeg(i), n, v);
      } else if n.rest.Just? {
        JudgeChild(n.rest.value, v.items[i], IndexSeg(i), n, v);
      } else if n.addItems.Just? {
        if n.addItems.value.isFalse {
          ghost var start := Now();
          PushPath(IndexSeg(i));
          ghost var pushed := Now();
          Complain(BeyondTuple, n.addItems.value, v.items[i]);
          ghost var complained := Now();
          PopPath();
          ChildJudged(start, pushed, complained, Now(), false, n, v, IndexSeg(i), n.addItems.value, v.items[i]);
        } else {
          JudgeChild(n.addItems.value, v.items[i], IndexSeg(i), n, v);
        }
      }
    }

    /** Counts the items that pass the trial. */
    method JudgeContains(n: Schema, v: Value)
      requires Valid() && v.List? && n.contains.Just?
      modifies this
      ensures Valid() && Effect(old(Now()), Now(), AcceptsContains(n, v.items), n, v)
      decreases n, 2
    {
      hide Effect;
      ghost var start := Now();
      NoEffect(start, n, v);
      var hits := 0;
      var i := 0;
      while i < |v.items|
        invariant 0 <= i <= |v.items| && Valid() && hits == |Satisfying(n.contains.value, v.items, i)|
        invariant Effect(start, Now(), true, n, v)
      {
        ghost var before := Now();
        assert IsChild(v, IndexSeg(i), v.items[i]);
        ChildIsLower(v, IndexSeg(i), v.items[i]);
        var ok := PassesFor(n.contains.value, v.items[i], n, v);
        Then(start, before, Now(), true, true, n, v);
        SatisfyingMore(n.contains.value, v.items, i);
        if ok {
          hits := hits + 1;
        }
        i := i + 1;
      }
      ghost var tried := Now();
      var min := if n.minContains.Just? then n.minContains.value else 1;
      var max := if n.maxContains.Just? then n.maxContains.value else |v.items|;
      assert Within(hits, Just(min), Just(max)) == AcceptsContains(n, v.items);
      assert !AcceptsContains(n, v.items) ==> !AcceptsItems(n, v.items);
      CheckCount(hits, Just(min), Just(max), TooFewContained, TooManyContained, n, v);
      Then(start, tried, Now(), true, Within(hits, Just(min), Just(max)), n, v);
    }

    lemma {:induction false} SatisfyingMore(n: Schema, xs: seq<Value>, k: nat)
      requires k < |xs|
      ensures |Satisfying(n, xs, k + 1)| == |Satisfying(n, xs, k)| + (if Accepts(n, xs[k]) then 1 else 0)
    {
      var now, was := Satisfying(n, xs, k + 1), Satisfying(n, xs, k);
      assert now == if Accepts(n, xs[k]) then was + {k} else was;
    }

    ghost predicate AllAccept(ns: seq<Schema>, v: Value, k: nat) {
      forall i :: 0 <= i < |ns| && i < k ==> Accepts(ns[i], v)
    }

    ghost predicate SomeAccepts(ns: seq<Schema>, v: Value, k: nat) {
      exists i :: 0 <= i < |ns| && i < k && Accepts(ns[i], v)
    }

    method JudgeCombined(n: Schema, v: Value)
      requires Valid()
      modifies this
      ensures Valid() && Effect(old(Now()), Now(), AcceptsCombined(n, v), n, v)
      decreases n, 3
    {
      hide Effect, Accepts, ExactlyOne, AcceptsThen, AcceptsElse;
      ghost var s0 := Now();
      JudgeAll(n, v);
      ghost var s1, ok1 := Now(), AllAccept(n.allOf, v, |n.allOf|);
      JudgeAny(n, v);
      ghost var s2, ok2 := Now(), n.anyOf != [] ==> SomeAccepts(n.anyOf, v, |n.anyOf|);
      Then(s0, s1, s2, ok1, ok2, n, v);
      JudgeOne(n, v);
      ghost var s3, ok3 := Now(), n.oneOf != [] ==> ExactlyOne(n, v);
      Then(s0, s2, s3, ok1 && ok2, ok3, n, v);
      JudgeNot(n, v);
      ghost var s4, ok4 := Now(), n.notS.Just? ==> !Accepts(n.notS.value, v);
      Then(s0, s3, s4, ok1 && ok2 && ok3, ok4, n, v);
      JudgeIf(n, v);
      Then(s0, s4, Now(), ok1 && ok2 && ok3 && ok4,
           n.ifS.Just? ==> if Accepts(n.ifS.value, v) then AcceptsThen(n, v) else AcceptsElse(n, v), n, v);
    }

    method JudgeAll(n: Schema, v: Value)
      requires Valid()
      modifies this
      ensures Valid() && Effect(old(Now()), Now(), AllAccept(n.allOf, v, |n.allOf|), n, v)
      decreases n, 2
    {
      hide Effect;
      ghost var start := Now();
      NoEffect(start, n, v);
      var i := 0;
      while i < |n.allOf|
        invariant 0 <= i <= |n.allOf| && Valid()
        invariant Effect(start, Now(), AllAccept(n.allOf, v, i), n, v)
      {
        ghost var before := Now();
        assert forall p: Path :: Blames(n.allOf[i], v, p) ==> Blames(n, v, p);
        JudgePart(n.allOf[i], v, n);
        Then(start, before, Now(), AllAccept(n.allOf, v, i), Accepts(n.allOf[i], v), n, v);
        i := i + 1;
        assert AllAccept(n.allOf, v, i) <==> AllAccept(n.allOf, v, i - 1) && Accepts(n.allOf[i - 1], v);
      }
    }

    /** Every branch is tried, even after one has passed. */
    method JudgeAny(n: Schema, v: Value)
      requires Valid()
      modifies this
      ensures Valid() && Effect(old(Now()), Now(), n.anyOf != [] ==> SomeAccepts(n.anyOf, v, |n.anyOf|), n, v)
      decreases n, 2
    {
      hide Effect;
      ghost var start := Now();
      NoEffect(start, n, v);
      if |n.anyOf| > 0 {
        var ok := false;
        var i := 0;
        while i < |n.anyOf|
          invariant 0 <= i <= |n.anyOf| && Valid() && ok == SomeAccepts(n.anyOf, v, i)
          invariant Effect(start, Now(), true, n, v)
        {
          ghost var before := Now();
          var passed := Passes(n.anyOf[i], v, n);
          Then(start, before, Now(), true, true, n, v);
          if passed {
            ok := true;
          }
          i := i + 1;
          assert SomeAccepts(n.anyOf, v, i) <==> SomeAccepts(n.anyOf, v, i - 1) || passed;
        }
        ghost var tried := Now();
        Require(ok, NoneOfAny, n, v);
        Then(start, tried, Now(), true, ok, n, v);
      }
    }

    /** `hits` branches passed, the last of them `last`. */
    ghost predicate Hits(ns: seq<Schema>, v: Value, k: nat, hits: nat, last: nat) {
      && k <= |ns|
      && (hits > 0 ==> last < k && Accepts(ns[last], v))
      && (hits == 0 ==> forall i :: 0 <= i < k ==> !Accepts(ns[i], v))
      && (hits == 1 ==> forall i :: 0 <= i < k && Accepts(ns[i], v) ==> i == last)
      && (hits > 1 ==> exists i :: 0 <= i < k && Accepts(ns[i], v) && i != last)
    }

    lemma {:induction false} NoHits(ns: seq<Schema>, v: Value)
      ensures Hits(ns, v, 0, 0, 0)
    {
    }

    lemma {:induction false} HitsMore(ns: seq<Schema>, v: Value, k: nat, hits: nat, last: nat)
      requires k < |ns| && Hits(ns, v, k, hits, last)
      ensures if Accepts(ns[k], v) then Hits(ns, v, k + 1, hits + 1, k) else Hits(ns, v, k + 1, hits, last)
    {
    }

    lemma {:induction false} HitsDecide(n: Schema, v: Value, hits: nat, last: nat)
      requires n.oneOf != [] && Hits(n.oneOf, v, |n.oneOf|, hits, last)
      ensures hits == 1 <==> ExactlyOne(n, v)
      ensures hits != 1 ==> !Accepts(n, v)
    {
    }

    method JudgeOne(n: Schema, v: Value)
      requires Valid()
      modifies this
      ensures Valid() && Effect(old(Now()), Now(), n.oneOf != [] ==> ExactlyOne(n, v), n, v)
      decreases n, 2
    {
      hide Effect, Hits, ExactlyOne, Accepts;
      ghost var start := Now();
      NoEffect(start, n, v);
      if |n.oneOf| > 0 {
        var hits := 0;
        NoHits(n.oneOf, v);
        ghost var last := 0;
        var i := 0;
        while i < |n.oneOf|
          invariant 0 <= i <= |n.oneOf| && Valid() && 0 <= hits && 0 <= last && Hits(n.oneOf, v, i, hits, last)
          invariant Effect(start, Now(), true, n, v)
        {
          ghost var before := Now();
          var passed := Passes(n.oneOf[i], v, n);
          Then(start, before, Now(), true, true, n, v);
          HitsMore(n.oneOf, v, i, hits, last);
          if passed {
            hits := hits + 1;
            last := i;
          }
          i := i + 1;
        }
        HitsDecide(n, v, hits, last);
        ghost var tried := Now();
        Require(hits == 1, NotExactlyOne, n, v);
        Then(start, tried, Now(), true, hits == 1, n, v);
      }
    }

    method JudgeNot(n: Schema, v: Value)
      requires Valid()
      modifies this
      ensures Valid() && Effect(old(Now()), Now(), n.notS.Just? ==> !Accepts(n.notS.value, v), n, v)
      decreases n, 2
    {
      hide Effect;
      ghost var start := Now();
      NoEffect(start, n, v);
      if n.notS.Just? {
        var passed := Passes(n.notS.value, v, n);
        ghost var tried := Now();
        Require(!passed, MatchesNot, n, v);
        Then(start, tried, Now(), true, !passed, n, v);
      }
    }

    method JudgeIf(n: Schema, v: Value)
      requires Valid()
      modifies this
      ensures Valid()
      ensures Effect(old(Now()), Now(),
                     n.ifS.Just? ==> if Accepts(n.ifS.value, v) then AcceptsThen(n, v) else AcceptsElse(n, v), n, v)
      decreases n, 2
    {
      hide Effect;
      ghost var start := Now();
      NoEffect(start, n, v);
      if n.ifS.Just? {
        var cond := Passes(n.ifS.value, v, n);
        ghost var tried := Now();
        NoEffect(tried, n, v);
        if cond && n.thenS.Just? {
          JudgePart(n.thenS.value, v, n);
        } else if !cond && n.elseS.Just? {
          JudgePart(n.elseS.value, v, n);
        }
        Then(start, tried, Now(), true, if cond then AcceptsThen(n, v) else AcceptsElse(n, v), n, v);
      }
    }
  }

  /** Validates a document: no report comes out exactly when the schema accepts
      it; there are never more than 256; and if the document is nested no deeper
      than the path stack, every report's path leads to what the schema rejects
      it for. */
  method Validate(n: Schema, v: Value) returns (reports: seq<Report>)
    ensures reports == [] <==> Accepts(n, v)
    ensures |reports| <= MAX_REPORTS
    ensures Height(v) <= MAX_PATH ==>
              forall r :: 0 <= r < |reports| ==> Blames(n, v, reports[r].path) && Points(v, reports[r].path)
  {
    var walk := new Walk();
    ghost var start := walk.Now();
    walk.Judge(n, v);
    reports := walk.reports;
    hide Blames, Accepts;
    forall r | 0 <= r < |reports| && Height(v) <= MAX_PATH
      ensures Blames(n, v, reports[r].path) && Points(v, reports[r].path)
    {
      assert LeadsInto(reports[r].path, start.path, n, v);
      assert reports[r].path[|start.path|..] == reports[r].path;
      BlamedIsRejected(n, v, reports[r].path);
    }
  }
}
