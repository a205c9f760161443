/** Where dotted keys put their values: at the address that the parts of the key
    spell, and nothing else moves.  Inline tables are read with keys of any number
    of parts. */
module Landing {
  import opened Sequences
  import opened Document
  import opened Places
  import opened Statements
  import opened Safety
  import opened RoundTrip
  import opened Tokens

  /** The address that a dotted key spells. */
  function Fields(path: seq<Key>): (addr: seq<Sel>)
    ensures |addr| == |path| && forall i :: 0 <= i < |path| ==> addr[i] == Field(path[i])
  {
    if path == [] then [] else [Field(path[0])] + Fields(path[1..])
  }

  lemma {:induction false} FieldsFirst(path: seq<Key>)
    requires path != []
    ensures Fields(path)[0] == Field(path[0]) && Fields(path)[1..] == Fields(path[1..])
  {
  }

  /** After a dotted key was inserted, its value is at its address, where nothing
      was before. */
  lemma {:induction false} InsertLands(t: Tree, path: seq<Key>, v: Tree)
    requires t.Table? && path != [] && Insert(t, path, v).Ok?
    ensures At(t, Fields(path)) == Nothing
    ensures At(Insert(t, path, v).value, Fields(path)) == Just(v)
    decreases |path|
  {
    var r := Insert(t, path, v).value;
    var i := IndexOf(t.entries, path[0]);
    FieldsFirst(path);
    if i == |t.entries| {
      IndexOfAppend(t.entries, r.entries[i], path[0]);
      if |path| > 1 {
        InsertLands(Table(Dotted, []), path[1..], v);
      }
    } else {
      IndexOfSetValue(t, i, r.entries[i].value, path[0]);
      InsertLands(t.entries[i].value, path[1..], v);
    }
  }

  /** Every address that neither leads to the inserted value nor through it holds
      what it held. */
  lemma {:induction false} InsertMovesNothing(t: Tree, path: seq<Key>, v: Tree, addr: seq<Sel>)
    requires t.Table? && path != [] && Insert(t, path, v).Ok? && !Related(addr, Fields(path))
    ensures At(Insert(t, path, v).value, addr) == At(t, addr)
    decreases |path|
  {
    var r := Insert(t, path, v).value;
    var i := IndexOf(t.entries, path[0]);
    FieldsFirst(path);
    if addr[0] == Field(path[0]) {
      NotRelatedBelow(addr, Fields(path));
      if i == |t.entries| {
        IndexOfAppend(t.entries, r.entries[i], path[0]);
        InsertMovesNothing(Table(Dotted, []), path[1..], v, addr[1..]);
        EmptyHolds(Dotted, addr[1..]);
      } else {
        IndexOfSetValue(t, i, r.entries[i].value, path[0]);
        InsertMovesNothing(t.entries[i].value, path[1..], v, addr[1..]);
      }
    } else if addr[0].Field? {
      OtherKeyStays(t, path[0], r, addr[0].key);
    }
  }

  /** One insertion step changes what is found under one key only. */
  lemma {:induction false} OtherKeyStays(t: Tree, k: Key, r: Tree, other: Key)
    requires t.Table? && r.Table? && other != k
    requires var i := IndexOf(t.entries, k);
             if i == |t.entries| then |r.entries| == i + 1 && r.entries[..i] == t.entries && r.entries[i].key == k
             else exists u :: r == SetValue(t, i, u)
    ensures var j := IndexOf(t.entries, other);
            if j == |t.entries| then IndexOf(r.entries, other) == |r.entries|
            else IndexOf(r.entries, other) == j && r.entries[j] == t.entries[j]
  {
    var i, j := IndexOf(t.entries, k), IndexOf(t.entries, other);
    if i == |t.entries| {
      assert r.entries == t.entries + [r.entries[i]];
      IndexOfAppend(t.entries, r.entries[i], other);
    } else {
      var u :| r == SetValue(t, i, u);
      IndexOfSetValue(t, i, u, other);
    }
  }

  lemma {:induction false} EmptyHolds(flag: Flag, addr: seq<Sel>)
    ensures At(Table(flag, []), addr) == if addr == [] then Just(Table(flag, [])) else Nothing
  {
  }

  /** On the way to the value there are tables: those that were there, with their
      flags, and new ones made by the dots of the key. */
  lemma {:induction false} InsertMakesTables(t: Tree, path: seq<Key>, v: Tree, n: nat)
    requires t.Table? && path != [] && Insert(t, path, v).Ok? && n < |path|
    ensures var was, now := At(t, Fields(path[..n])), At(Insert(t, path, v).value, Fields(path[..n]));
            && now.Just? && now.value.Table?
            && (was.Just? ==> was.value.Table? && now.value.flag == was.value.flag)
            && (was.Nothing? ==> now.value.flag == Dotted)
    decreases |path|
  {
    var r := Insert(t, path, v).value;
    var i := IndexOf(t.entries, path[0]);
    InsertFlag(t, path, v);
    if n > 0 {
      FieldsFirst(path[..n]);
      assert path[..n][1..] == path[1..][..n - 1];
      if i == |t.entries| {
        IndexOfAppend(t.entries, r.entries[i], path[0]);
        InsertMakesTables(Table(Dotted, []), path[1..], v, n - 1);
        EmptyHolds(Dotted, Fields(path[1..][..n - 1]));
      } else {
        IndexOfSetValue(t, i, r.entries[i].value, path[0]);
        InsertMakesTables(t.entries[i].value, path[1..], v, n - 1);
      }
    }
  }

  /** Nothing is at the address, or a table that dotted keys made. */
  ghost predicate Passable(o: Maybe<Tree>) {
    o.Just? ==> o.value.Table? && o.value.flag.Dotted?
  }

  /** A dotted key is accepted if and only if nothing is in its place and nothing on
      the way but tables made by dotted keys. */
  lemma {:induction false} InsertIsAcceptedIff(t: Tree, path: seq<Key>, v: Tree)
    requires t.Table? && path != []
    ensures Insert(t, path, v).Ok? <==>
              && At(t, Fields(path)) == Nothing
              && forall n | 0 < n < |path| :: Passable(At(t, Fields(path[..n])))
    decreases |path|
  {
    var i := IndexOf(t.entries, path[0]);
    FieldsFirst(path);
    if i == |t.entries| {
      forall n | 0 < n < |path| ensures Passable(At(t, Fields(path[..n]))) {
        FieldsFirst(path[..n]);
      }
      if |path| > 1 {
        AcceptedByNew(path[1..], v);
      }
    } else if |path| > 1 {
      PassableBelow(t, path, i);
      if EnterDotted(t.entries[i].value).Ok? {
        InsertIsAcceptedIff(t.entries[i].value, path[1..], v);
      }
    }
  }

  lemma {:induction false} AcceptedByNew(path: seq<Key>, v: Tree)
    requires path != []
    ensures Insert(Table(Dotted, []), path, v).Ok?
    decreases |path|
  {
    if |path| > 1 {
      AcceptedByNew(path[1..], v);
    }
  }

  lemma {:induction false} PassableBelow(t: Tree, path: seq<Key>, i: nat)
    requires t.Table? && |path| > 1 && i == IndexOf(t.entries, path[0]) < |t.entries|
    ensures (forall n | 0 < n < |path| :: Passable(At(t, Fields(path[..n])))) <==>
              && EnterDotted(t.entries[i].value).Ok?
              && forall n | 0 < n < |path| - 1 :: Passable(At(t.entries[i].value, Fields(path[1..][..n])))
  {
    var u := t.entries[i].value;
    forall n | 0 < n < |path| ensures At(t, Fields(path[..n])) == At(u, Fields(path[1..][..n - 1])) {
      FieldsFirst(path[..n]);
      assert path[..n][1..] == path[1..][..n - 1];
    }
    assert path[1..][..0] == [] && At(u, Fields([])) == Just(u);
    if forall n | 0 < n < |path| :: Passable(At(t, Fields(path[..n]))) {
      assert Passable(At(t, Fields(path[..1])));
      forall n | 0 < n < |path| - 1 ensures Passable(At(u, Fields(path[1..][..n]))) {
        assert Passable(At(t, Fields(path[..n + 1])));
      }
    }
  }

  // ----------------------------------------------------------------- headers

  /** A header may go on through it: a table that is not inline, or an array of
      tables, whose last one it then goes on in. */
  ghost predicate Enterable(v: Tree) {
    || (v.Table? && v.flag != Inline)
    || (v.Array? && v.aot && v.items != [] && v.items[|v.items| - 1].Table?)
  }

  /** What a header may find under its part `n`: something to go on through, or, for
      its last part, a table no line has defined, or an array of tables. */
  ghost predicate PartFits(t: Tree, path: seq<Key>, n: nat, aot: bool)
    requires t.Table? && n < |path|
  {
    Leads(t, path[..n]) ==>
      var u := Get(t, path[..n]);
      var i := IndexOf(u.entries, path[n]);
      i < |u.entries| ==>
        var v := u.entries[i].value;
        if n < |path| - 1 then Enterable(v)
        else if aot then v.Array? && v.aot
        else v.Table? && v.flag == Implicit
  }

  /** A header is accepted if and only if each of its parts finds nothing or what it
      may find. */
  lemma {:induction false} HeaderIsAcceptedIff(t: Tree, path: seq<Key>, aot: bool)
    requires t.Table? && path != []
    ensures Define(t, path, aot).Ok? <==> forall n | 0 <= n < |path| :: PartFits(t, path, n, aot)
    decreases |path|
  {
    var i := IndexOf(t.entries, path[0]);
    assert path[..0] == [] && Get(t, []) == t;
    forall n | 0 < n < |path| ensures PartFits(t, path, n, aot) <==>
        (i < |t.entries| && Enter(t.entries[i].value).Ok? ==>
          PartFits(Enter(t.entries[i].value).value, path[1..], n - 1, aot))
    {
      PartBelow(t, path, n, aot);
    }
    if |path| > 1 {
      if i == |t.entries| {
        NewTableTakesAll(path[1..], aot);
      } else if Enter(t.entries[i].value).Ok? {
        HeaderIsAcceptedIff(Enter(t.entries[i].value).value, path[1..], aot);
        AllParts(t, path, aot, i);
      } else {
        assert !PartFits(t, path, 0, aot);
      }
    } else {
      assert Define(t, path, aot).Ok? <==> PartFits(t, path, 0, aot);
      if PartFits(t, path, 0, aot) {
        forall n | 0 <= n < |path| ensures PartFits(t, path, n, aot) {
          assert n == 0;
        }
      }
    }
  }

  lemma {:induction false} PartBelow(t: Tree, path: seq<Key>, n: nat, aot: bool)
    requires t.Table? && 0 < n < |path|
    ensures var i := IndexOf(t.entries, path[0]);
            PartFits(t, path, n, aot) <==>
            (i < |t.entries| && Enter(t.entries[i].value).Ok? ==>
               PartFits(Enter(t.entries[i].value).value, path[1..], n - 1, aot))
  {
    assert path[..n][1..] == path[1..][..n - 1] && path[..n][0] == path[0];
  }

  lemma {:induction false} AllParts(t: Tree, path: seq<Key>, aot: bool, i: nat)
    requires t.Table? && |path| > 1 && i == IndexOf(t.entries, path[0]) < |t.entries|
    requires Enter(t.entries[i].value).Ok?
    ensures (forall n | 0 <= n < |path| :: PartFits(t, path, n, aot)) <==>
            forall n | 0 <= n < |path| - 1 :: PartFits(Enter(t.entries[i].value).value, path[1..], n, aot)
  {
    var u := Enter(t.entries[i].value).value;
    assert path[..0] == [] && PartFits(t, path, 0, aot);
    if forall n | 0 <= n < |path| :: PartFits(t, path, n, aot) {
      forall n | 0 <= n < |path| - 1 ensures PartFits(u, path[1..], n, aot) {
        PartBelow(t, path, n + 1, aot);
        assert PartFits(t, path, n + 1, aot);
      }
    }
    if forall n | 0 <= n < |path| - 1 :: PartFits(u, path[1..], n, aot) {
      forall n | 0 <= n < |path| ensures PartFits(t, path, n, aot) {
        if n > 0 {
          PartBelow(t, path, n, aot);
          assert PartFits(u, path[1..], n - 1, aot);
        }
      }
    }
  }

  lemma {:induction false} NewTableTakesAll(path: seq<Key>, aot: bool)
    requires path != []
    ensures Define(Table(Implicit, []), path, aot).Ok?
    decreases |path|
  {
    if |path| > 1 {
      NewTableTakesAll(path[1..], aot);
    }
  }

  // ----------------------------------------------------------- inline tables

  /** A member of an inline table: its key may have several parts. */
  datatype Pair = Pair(path: seq<Key>, value: Tree)

  function PairText(m: Pair): seq<Tok> {
    [KeyTok(m.path), Equals] + ValueText(m.value)
  }

  function PairsText(ms: seq<Pair>): seq<Tok> {
    if ms == [] then [] else PairText(ms[0]) + MorePairsText(ms[1..])
  }

  function MorePairsText(ms: seq<Pair>): seq<Tok> {
    if ms == [] then [] else [Comma] + PairText(ms[0]) + MorePairsText(ms[1..])
  }

  /** What the reader takes of a member within the limits. */
  ghost predicate Fitting(m: Pair, depth: nat, max: nat) {
    0 < |m.path| <= max && IsInner(m.value) && depth + Nesting(m.value) <= max
  }

  ghost predicate AllFitting(ms: seq<Pair>, depth: nat, max: nat) {
    forall i :: 0 <= i < |ms| ==> Fitting(ms[i], depth, max)
  }

  /** Inserting the members one after the other. */
  ghost function InsertAll(t: Tree, ms: seq<Pair>): (r: Result<Tree>)
    requires t.Table? && forall i :: 0 <= i < |ms| ==> ms[i].path != []
    ensures r.Ok? ==> r.value.Table?
    decreases |ms|
  {
    if ms == [] then Ok(t)
    else
      match Insert(t, ms[0].path, Inlined(ms[0].value))
      case Ok(t') => InsertAll(t', ms[1..])
      case Err(e) => Err(e)
  }

  /** Whatever member the reader took: its value is where its key says, and nothing
      else has moved. */
  lemma {:induction false} MemberLands(toks: seq<Tok>, p: nat, t: Tree, depth: nat, max: nat)
    requires p + 2 <= |toks| && toks[p].KeyTok? && t.Table? && MemberAt(toks, p, t, depth, max).Done?
    ensures var path, r := toks[p].path, MemberAt(toks, p, t, depth, max).value;
            && At(t, Fields(path)) == Nothing
            && ParseValue(toks, p + 2, depth, max).Done?
            && At(r, Fields(path)) == Just(ParseValue(toks, p + 2, depth, max).value)
            && forall addr | !Related(addr, Fields(path)) :: At(r, addr) == At(t, addr)
  {
    var path, v := toks[p].path, ParseValue(toks, p + 2, depth, max).value;
    InsertLands(t, path, v);
    forall addr | !Related(addr, Fields(path)) ensures At(Insert(t, path, v).value, addr) == At(t, addr) {
      InsertMovesNothing(t, path, v, addr);
    }
  }

  /** A member read where its text is. */
  lemma {:induction false} ReadPair(toks: seq<Tok>, p: nat, m: Pair, t: Tree, depth: nat, max: nat)
    requires Has(toks, p, PairText(m)) && Fitting(m, depth, max) && t.Table?
    ensures p < |toks| && toks[p].KeyTok?
    ensures MemberAt(toks, p, t, depth, max) == match Insert(t, m.path, Inlined(m.value))
                                               case Ok(t') => Done(t', p + |PairText(m)|)
                                               case Err(e) => Fail(Semantic(e))
  {
    HasHead(toks, p, PairText(m));
    HasConcat(toks, p, [KeyTok(m.path), Equals], ValueText(m.value));
    assert toks[p..p + 2][1] == toks[p + 1];
    ReadValue(toks, p + 2, m.value, depth, max);
  }

  lemma {:induction false} MoreIsComma(rest: seq<Pair>)
    requires rest != []
    ensures MorePairsText(rest) == [Comma] + PairsText(rest)
    ensures PairsText(rest) == PairText(rest[0]) + MorePairsText(rest[1..])
  {
    Assoc([Comma], PairText(rest[0]), MorePairsText(rest[1..]));
  }

  lemma {:induction false} MorePairsAt(toks: seq<Tok>, n: nat, rest: seq<Pair>)
    requires Has(toks, n, MorePairsText(rest) + [CloseBrace])
    ensures n < |toks|
    ensures rest == [] ==> toks[n] == CloseBrace
    ensures rest != [] ==> toks[n] == Comma && Has(toks, n + 1, PairsText(rest) + [CloseBrace])
  {
    HasHead(toks, n, MorePairsText(rest) + [CloseBrace]);
    if rest != [] {
      MoreIsComma(rest);
      hide PairsText, MorePairsText, Has;
      Assoc([Comma], PairsText(rest), [CloseBrace]);
      HasConcat(toks, n, [Comma], PairsText(rest) + [CloseBrace]);
    }
  }

  lemma {:induction false} NoMore()
    ensures MorePairsText([]) == []
  {
  }

  /** A member that is refused ends the reading. */
  lemma {:induction false} TableStops(toks: seq<Tok>, p: nat, t: Tree, f: Failure, depth: nat, max: nat)
    requires p < |toks| && toks[p].KeyTok? && t.Table? && MemberAt(toks, p, t, depth, max) == Fail(f)
    ensures TableFrom(toks, p, t, depth, max) == Fail(f)
  {
    hide MemberAt;
    assert SkipGap(toks, p) == p;
  }

  lemma {:induction false} ReadPairs(toks: seq<Tok>, p: nat, ms: seq<Pair>, t: Tree, depth: nat, max: nat)
    requires Has(toks, p, PairsText(ms) + [CloseBrace]) && ms != [] && AllFitting(ms, depth, max) && t.Table?
    ensures TableFrom(toks, p, t, depth, max) == match InsertAll(t, ms)
                                                case Ok(t') => Done(t', p + |PairsText(ms)| + 1)
                                                case Err(e) => Fail(Semantic(e))
    decreases |ms|
  {
    hide Has, ValueText, TableFrom, MemberAt, Insert, Inlined, Nesting, IsInner;
    var m, rest := ms[0], ms[1..];
    var n := p + |PairText(m)|;
    assert Fitting(m, depth, max);
    MoreIsComma(ms);
    hide PairsText, MorePairsText, PairText;
    Assoc(PairText(m), MorePairsText(rest), [CloseBrace]);
    HasConcat(toks, p, PairText(m), MorePairsText(rest) + [CloseBrace]);
    ReadPair(toks, p, m, t, depth, max);
    MorePairsAt(toks, n, rest);
    match Insert(t, m.path, Inlined(m.value))
    case Err(e) => TableStops(toks, p, t, Semantic(e), depth, max);
    case Ok(t') =>
      TableStep(toks, p, t, t', n, depth, max);
      if rest != [] {
        ReadPairs(toks, n + 1, rest, t', depth, max);
        MoreIsComma(rest);
      } else {
        assert |MorePairsText(rest)| == 0 by { NoMore(); }
      }
  }

  /** An inline table read where its text is: all members inserted in order, or the
      first refusal among them. */
  lemma {:induction false} ReadPairTable(toks: seq<Tok>, p: nat, ms: seq<Pair>, depth: nat, max: nat)
    requires Has(toks, p, [OpenBrace] + PairsText(ms) + [CloseBrace])
    requires depth < max && AllFitting(ms, depth + 1, max)
    ensures ParseValue(toks, p, depth, max) == match InsertAll(Table(Inline, []), ms)
                                              case Ok(t) => Done(t, p + |PairsText(ms)| + 2)
                                              case Err(e) => Fail(Semantic(e))
  {
    HasBracketed(toks, p, OpenBrace, PairsText(ms), CloseBrace);
    if ms == [] {
      HasHead(toks, p + 1, PairsText(ms) + [CloseBrace]);
    } else {
      ReadPairs(toks, p + 1, ms, Table(Inline, []), depth + 1, max);
    }
  }

  /** Nothing is below where nothing is. */
  lemma {:induction false} NothingBelow(t: Tree, a: seq<Sel>, b: seq<Sel>)
    requires a <= b && At(t, a) == Nothing
    ensures At(t, b) == Nothing
    decreases |a|
  {
    if a != [] {
      assert a[0] == b[0] && a[1..] <= b[1..];
      match a[0]
      case Field(k) =>
        if t.Table? && IndexOf(t.entries, k) < |t.entries| {
          NothingBelow(t.entries[IndexOf(t.entries, k)].value, a[1..], b[1..]);
        }
      case Elem(i) =>
        if t.Array? && i < |t.items| {
          NothingBelow(t.items[i], a[1..], b[1..]);
        }
    }
  }

  lemma {:induction false} FieldsPrefix(path: seq<Key>, n: nat)
    requires n <= |path|
    ensures Fields(path)[..n] == Fields(path[..n])
  {
  }

  lemma {:induction false} WayIsPassable(t: Tree, path: seq<Key>, v: Tree, addr: seq<Sel>)
    requires t.Table? && path != [] && Insert(t, path, v).Ok?
    requires addr != [] && addr <= Fields(path) && addr != Fields(path)
    ensures Passable(At(t, addr))
  {
    InsertIsAcceptedIff(t, path, v);
    FieldsPrefix(path, |addr|);
    assert addr == Fields(path[..|addr|]);
    assert Passable(At(t, Fields(path[..|addr|])));
  }

  /** A value stays where it is when another key is inserted. */
  lemma {:induction false} InsertKeeps(t: Tree, path: seq<Key>, v: Tree, addr: seq<Sel>, x: Tree)
    requires t.Table? && path != [] && Insert(t, path, v).Ok?
    requires addr != [] && At(t, addr) == Just(x) && IsValue(x)
    ensures At(Insert(t, path, v).value, addr) == Just(x)
  {
    if !Related(addr, Fields(path)) {
      InsertMovesNothing(t, path, v, addr);
    } else if Fields(path) <= addr {
      InsertLands(t, path, v);
      NothingBelow(t, Fields(path), addr);
    } else {
      WayIsPassable(t, path, v, addr);
    }
  }

  lemma {:induction false} InsertAllKeeps(t: Tree, ms: seq<Pair>, addr: seq<Sel>, x: Tree)
    requires t.Table? && (forall i :: 0 <= i < |ms| ==> ms[i].path != []) && InsertAll(t, ms).Ok?
    requires addr != [] && At(t, addr) == Just(x) && IsValue(x)
    ensures At(InsertAll(t, ms).value, addr) == Just(x)
    decreases |ms|
  {
    if ms != [] {
      InsertKeeps(t, ms[0].path, Inlined(ms[0].value), addr, x);
      InsertAllKeeps(Insert(t, ms[0].path, Inlined(ms[0].value)).value, ms[1..], addr, x);
    }
  }

  /** Every member of an inline table that was read is found at its key. */
  lemma {:induction false} AllLand(t: Tree, ms: seq<Pair>, i: nat)
    requires t.Table? && (forall k :: 0 <= k < |ms| ==> ms[k].path != [] && IsInner(ms[k].value))
    requires InsertAll(t, ms).Ok? && i < |ms|
    ensures At(InsertAll(t, ms).value, Fields(ms[i].path)) == Just(Inlined(ms[i].value))
    decreases |ms|
  {
    var v := Inlined(ms[0].value);
    var t' := Insert(t, ms[0].path, v).value;
    if i > 0 {
      AllLand(t', ms[1..], i - 1);
    } else {
      InsertLands(t, ms[0].path, v);
      InlinedIsValue(ms[0].value);
      InsertAllKeeps(t', ms[1..], Fields(ms[0].path), v);
    }
  }

  // ------------------------------------------------------------------- lines

  lemma {:induction false} AtJoin(t: Tree, a: seq<Sel>, b: seq<Sel>)
    requires At(t, a).Just?
    ensures At(t, a + b) == At(At(t, a).value, b)
    decreases |a|
  {
    if a == [] {
      assert a + b == b;
    } else {
      assert (a + b)[0] == a[0] && (a + b)[1..] == a[1..] + b;
      match a[0]
      case Field(k) => AtJoin(t.entries[IndexOf(t.entries, k)].value, a[1..], b);
      case Elem(i) => AtJoin(t.items[i], a[1..], b);
    }
  }

  /** The table at a path keeps its address when it is replaced. */
  lemma {:induction false} AddressStays(t: Tree, path: seq<Key>, s: Tree)
    requires t.Table? && Leads(t, path) && s.Table? && !s.flag.Inline?
    ensures Leads(Put(t, path, s), path) && Address(Put(t, path, s), path) == Address(t, path)
    decreases |path|
  {
    GetPut(t, path, s);
    if path != [] {
      var i := IndexOf(t.entries, path[0]);
      var v := t.entries[i].value;
      var below := Put(Enter(v).value, path[1..], s);
      AddressStays(Enter(v).value, path[1..], s);
      PutFlag(Enter(v).value, path[1..], s);
      EnterLeave(v, below);
      IndexOfSetValue(t, i, Leave(v, below), path[0]);
    }
  }

  /** A `key = value` line puts the value at its key below the table that is
      current, where nothing was. */
  lemma {:induction false} LineLands(st: State, path: seq<Key>, v: Tree)
    requires Ready(st) && Proper(KeyVal(path, v)) && Step(st, KeyVal(path, v)).Ok?
    ensures var addr := Address(st.root, st.cur) + Fields(path);
            At(st.root, addr) == Nothing && At(Step(st, KeyVal(path, v)).value.root, addr) == Just(v)
  {
    var t := Get(st.root, st.cur);
    var t' := Insert(t, path, v).value;
    InsertLands(t, path, v);
    AtAddress(st.root, st.cur);
    AtJoin(st.root, Address(st.root, st.cur), Fields(path));
    InsertFlag(t, path, v);
    GetPut(st.root, st.cur, t');
    AddressStays(st.root, st.cur, t');
    AtAddress(Put(st.root, st.cur, t'), st.cur);
    AtJoin(Put(st.root, st.cur, t'), Address(st.root, st.cur), Fields(path));
  }

  /** Over every accepted run, the value of each `key = value` line is where the
      line put it, after every later line. */
  lemma {:induction false} LineValueIsKept(stmts: seq<Stmt>, m: nat, n: nat)
    requires AllProper(stmts) && Run(InitialState, stmts).Ok? && m < n <= |stmts| && stmts[m].KeyVal?
    ensures var st := After(stmts, m);
            At(After(stmts, n).root, Address(st.root, st.cur) + Fields(stmts[m].path)) == Just(stmts[m].value)
  {
    var st := After(stmts, m);
    AfterNext(stmts, m);
    assert stmts[m] == KeyVal(stmts[m].path, stmts[m].value);
    LineLands(st, stmts[m].path, stmts[m].value);
    ValuesNeverChange(stmts, m + 1, n, Address(st.root, st.cur) + Fields(stmts[m].path));
  }
}
