/** Header resolution over the arena: each step the parser takes, and the effect
    it has on the document the arena holds. */
module Resolution {
  import opened Document
  import opened Places
  import opened Statements
  import opened Arena

  /** What the parser ever allocates between lines: values, tables that are not
      inline, and arrays of tables, non-empty unless just being made. */
  ghost predicate ParserCell(h: Heap, i: nat)
    requires Ordered(h) && i < |h|
  {
    match h[i]
    case ValueCell(v) => IsValue(v)
    case TableCell(flag, _) => !flag.Inline?
    case ArrayCell(aot, _) => aot && Count(h[i]) > 0 && ElementsAreTables(h, i)
  }

  ghost predicate ElementsAreTables(h: Heap, i: nat)
    requires Ordered(h) && i < |h|
  {
    forall a :: 0 <= a < Count(h[i]) ==> Kid(h[i], a) < |h| && h[Kid(h[i], a)].TableCell?
  }

  ghost predicate ParserCellsBut(h: Heap, v: nat)
    requires Ordered(h)
  {
    forall i :: 0 <= i < |h| && i != v ==> ParserCell(h, i)
  }

  ghost predicate ParserCells(h: Heap)
    requires Ordered(h)
  {
    ParserCellsBut(h, |h|)
  }

  /** Cells that did not change, or changed no table into anything else, are
      still what the parser allocates. */
  lemma {:induction false} CellsStill(h: Heap, up: seq<nat>, h': Heap, up': seq<nat>, w: nat, v: nat)
    requires ChangesOnly(h, up, h', up', w) && (h[w].TableCell? ==> h'[w].TableCell?)
    requires ParserCellsBut(h, v) && |h'| <= |h| + 1
    requires w == v || ParserCell(h', w)
    requires |h| < |h'| ==> |h| == v || ParserCell(h', |h|)
    ensures ParserCellsBut(h', v)
  {
    forall i | 0 <= i < |h'| && i != v ensures ParserCell(h', i) {
      if i < |h| && i != w {
        assert ParserCell(h, i);
        assert h'[i] == h[i];
      }
    }
  }

  /** The work left for a header once its first missing part has been made. */
  lemma {:induction false} DefineImplicit(t: Tree, path: seq<Key>, aot: bool)
    requires t.Table? && |path| > 1 && IndexOf(t.entries, path[0]) == |t.entries|
    ensures Define(t.(entries := t.entries + [Entry(path[0], Table(Implicit, []))]), path, aot) == Define(t, path, aot)
  {
    var e := Entry(path[0], Table(Implicit, []));
    var t' := t.(entries := t.entries + [e]);
    IndexOfAppend(t.entries, e, path[0]);
    match Define(Table(Implicit, []), path[1..], aot)
    case Ok(s) => assert SetValue(t', |t.entries|, s).entries == t.entries + [Entry(path[0], s)];
    case Err(_) =>
  }

  /** A header resolved from a document in which its first missing part has
      just been made. */
  lemma {:induction false} DefinePutImplicit(t: Tree, p: seq<Key>, q: seq<Key>, aot: bool)
    requires t.Table? && Leads(t, p) && |q| > 1 && !Get(t, p).flag.Inline?
    requires IndexOf(Get(t, p).entries, q[0]) == |Get(t, p).entries|
    ensures var b := Get(t, p);
            Define(Put(t, p, b.(entries := b.entries + [Entry(q[0], Table(Implicit, []))])), p + q, aot) ==
              Define(t, p + q, aot)
  {
    var b := Get(t, p);
    var a := b.(entries := b.entries + [Entry(q[0], Table(Implicit, []))]);
    DefineImplicit(b, q, aot);
    DefineLift(t, p, q, aot);
    GetPut(t, p, a);
    DefineLift(Put(t, p, a), p, q, aot);
    if Define(b, q, aot).Ok? {
      PutPut(t, p, a, Define(b, q, aot).value);
    }
  }

  /** `h'` is `h` with a new cell `c`, linked as `k` at the end of table `t`. */
  ghost predicate Links(h: Heap, up: seq<nat>, h': Heap, up': seq<nat>, t: nat, k: Key, c: Cell) {
    && ChangesUnder(h, up, h', up', t, t) && |h'| == |h| + 1
    && h'[|h|] == c && h'[t] == TableCell(h[t].flag, h[t].links + [Arena.Link(k, |h|)])
    && ToTree(h', t) == Table(h[t].flag, ToTree(h, t).entries + [Entry(k, Bare(c))])
  }

  /** Where a new entry is found, and what it does to the document. */
  lemma {:induction false} LinkedAt(h: Heap, up: seq<nat>, h': Heap, up': seq<nat>, i: nat, p: seq<Key>, t: nat,
                                    k: Key, c: Cell)
    requires Links(h, up, h', up', t, k, c) && LinkOf(h[t].links, k) == |h[t].links|
    requires i < |h| && Follows(h, i, p, t)
    ensures Follows(h', i, p, t)
    ensures LinkOf(h'[t].links, k) == |h[t].links|
    ensures c.TableCell? && !c.flag.Inline? ==> Follows(h', i, p + [k], |h|)
    ensures ToTree(h, i).Table? && Leads(ToTree(h, i), p) && Get(ToTree(h, i), p) == ToTree(h, t)
    ensures ToTree(h', i) == Put(ToTree(h, i), p, ToTree(h', t))
  {
    FollowsStill(h, up, h', up', i, p, t, t);
    FollowsPut(h, up, h', up', i, p, t, t);
    FollowsTree(h, i, p, t);
    LinkOfTree(h, t, k);
    LinkOfTree(h', t, k);
    IndexOfAppend(ToTree(h, t).entries, Entry(k, Bare(c)), k);
    if c.TableCell? && !c.flag.Inline? {
      assert Kid(h'[t], |h[t].links|) == |h|;
      FollowsMore(h', i, p, t, k);
    }
  }

  /** Making a header's first missing part leaves the same work to do. */
  lemma {:induction false} DefineStep(h: Heap, up: seq<nat>, h': Heap, up': seq<nat>, p: seq<Key>, t: nat,
                                      q: seq<Key>, aot: bool)
    requires h != [] && Ordered(h) && Follows(h, 0, p, t) && |q| > 1
    requires Links(h, up, h', up', t, q[0], TableCell(Implicit, [])) && !h[t].flag.Inline?
    requires LinkOf(h[t].links, q[0]) == |h[t].links|
    ensures ToTree(h, 0).Table? && ToTree(h', 0).Table?
    ensures Define(ToTree(h', 0), p + q, aot) == Define(ToTree(h, 0), p + q, aot)
  {
    LinkedAt(h, up, h', up', 0, p, t, q[0], TableCell(Implicit, []));
    LinkOfTree(h, t, q[0]);
    ToTreeFlag(h, t);
    DefinePutImplicit(ToTree(h, 0), p, q, aot);
  }

  /** `h` with one more element in the array of tables `v`. */
  ghost function Pushed(h: Heap, v: nat): Heap
    requires v < |h| && h[v].ArrayCell?
  {
    h[v := ArrayCell(true, h[v].items + [|h|])] + [TableCell(Explicit, [])]
  }

  lemma {:induction false} PushedCells(h: Heap, up: seq<nat>, v: nat)
    requires Shaped(h, up) && v < |h| && h[v].ArrayCell? && h[v].aot && ParserCellsBut(h, v) && ElementsAreTables(h, v)
    ensures Shaped(Pushed(h, v), up + [v]) && ParserCells(Pushed(h, v))
  {
    var h' := Pushed(h, v);
    AddItem(h, up, v, true, TableCell(Explicit, []));
    CellsStill(h, up, h', up + [v], v, v);
    forall a | 0 <= a < Count(h'[v]) ensures Kid(h'[v], a) < |h'| && h'[Kid(h'[v], a)].TableCell? {
      assert a < |h[v].items| ==> Kid(h'[v], a) == Kid(h[v], a);
    }
    assert ParserCell(h', v);
  }

  /** One more element of the array of tables that `k` names in table `t`. */
  lemma {:induction false} PushElement(h: Heap, up: seq<nat>, p: seq<Key>, t: nat, k: Key, v: nat)
    requires Shaped(h, up) && h != [] && Follows(h, 0, p, t) && t < |h| && h[t].TableCell? && !h[t].flag.Inline?
    requires var e := LinkOf(h[t].links, k); e < |h[t].links| && h[t].links[e].node == v
    requires v < |h| && h[v].ArrayCell? && h[v].aot && ParserCellsBut(h, v) && ElementsAreTables(h, v)
    ensures var h' := Pushed(h, v);
            && ChangesUnder(h, up, h', up + [v], t, v)
            && ParserCells(h') && Follows(h', 0, p + [k], |h|)
            && ToTree(h, 0).Table? && Leads(ToTree(h, 0), p) && Get(ToTree(h, 0), p) == ToTree(h, t)
            && ToTree(h', 0) == Put(ToTree(h, 0), p, SetValue(ToTree(h, t), LinkOf(h[t].links, k),
                                                              Array(true, ToTree(h, v).items + [EmptyTable])))
  {
    var h' := Pushed(h, v);
    var e := LinkOf(h[t].links, k);
    assert Kid(h[t], e) == v;
    PushedCells(h, up, v);
    AddItem(h, up, v, true, TableCell(Explicit, []));
    FollowsStill(h, up, h', up + [v], 0, p, t, v);
    FollowsPut(h, up, h', up + [v], 0, p, t, v);
    FollowsTree(h, 0, p, t);
    ChangedBelow(h, up, h', up + [v], v, t, e);
    assert h'[t] == h[t];
    assert Kid(h'[v], |h[v].items|) == |h|;
    FollowsMore(h', 0, p, t, k);
  }

  /** Making explicit the implicit table that `k` names in table `t`. */
  lemma {:induction false} MakeExplicit(h: Heap, up: seq<nat>, p: seq<Key>, t: nat, k: Key, v: nat)
    requires Shaped(h, up) && h != [] && Follows(h, 0, p, t) && t < |h| && h[t].TableCell?
    requires var e := LinkOf(h[t].links, k); e < |h[t].links| && h[t].links[e].node == v
    requires v < |h| && h[v].TableCell? && h[v].flag.Implicit? && ParserCells(h)
    ensures var h' := h[v := h[v].(flag := Explicit)];
            var e := LinkOf(h[t].links, k);
            && Shaped(h', up) && ParserCells(h') && Follows(h', 0, p + [k], v)
            && ToTree(h, 0).Table? && Leads(ToTree(h, 0), p) && Get(ToTree(h, 0), p) == ToTree(h, t)
            && ToTree(h', 0) == Put(ToTree(h, 0), p, SetValue(ToTree(h, t), e, ToTree(h, v).(flag := Explicit)))
  {
    var h' := h[v := h[v].(flag := Explicit)];
    var e := LinkOf(h[t].links, k);
    assert Kid(h[t], e) == v;
    SetFlag(h, up, v, Explicit);
    FollowsStill(h, up, h', up, 0, p, t, v);
    FollowsPut(h, up, h', up, 0, p, t, v);
    FollowsTree(h, 0, p, t);
    CellsStill(h, up, h', up, v, |h|);
    ChangedBelow(h, up, h', up, v, t, e);
    assert h'[t] == h[t];
    FollowsMore(h', 0, p, t, k);
  }

  // ------------------------------------------------------ resolving headers

  /** Header resolution stands at table cell `t`, having walked `p`. */
  ghost predicate Stands(h: Heap, up: seq<nat>, p: seq<Key>, t: nat) {
    && Shaped(h, up) && ParserCells(h) && h != [] && t < |h| && h[t].TableCell? && Follows(h, 0, p, t)
    && h[0].TableCell?
  }

  /** The document a heap holds. */
  ghost function Doc(h: Heap): (t: Tree)
    requires Ordered(h) && h != [] && h[0].TableCell?
    ensures t.Table?
  {
    ToTree(h, 0)
  }

  /** The verdict `r` and the heap left behind are those of the header `path`. */
  ghost predicate HeaderDone(h: Heap, up: seq<nat>, path: seq<Key>, aot: bool, h': Heap, up': seq<nat>, r: Result<nat>)
    requires path != []
  {
    && Shaped(h, up) && h != [] && h[0].TableCell?
    && match Define(Doc(h), path, aot)
       case Ok(root) => r.Ok? && Stands(h', up', path, r.value) && Doc(h') == root
       case Err(e) => r == Err(e) && h' == h && up' == up
  }

  /** The checks on an existing part's cell. */
  function StepInto(h: Heap, v: nat): (r: Result<nat>)
    requires Ordered(h) && v < |h|
    requires h[v].ArrayCell? ==> h[v].items != [] && h[v].items[|h[v].items| - 1] < |h|
  {
    match h[v]
    case ValueCell(w) => Err(if w.Array? then ExtendsPlainArray else if w.Table? then ExtendsInline else NotATable)
    case ArrayCell(aot, items) =>
      if !aot then Err(ExtendsPlainArray)
      else if !h[items[|items| - 1]].TableCell? then Err(CorruptAot)
      else Ok(items[|items| - 1])
    case TableCell(flag, _) => if flag.Inline? then Err(ExtendsInline) else Ok(v)
  }

  lemma {:induction false} PartCell(h: Heap, up: seq<nat>, p: seq<Key>, t: nat, e: nat)
    requires Stands(h, up, p, t) && e < |h[t].links|
    ensures var v := h[t].links[e].node;
            && v < |h| && up[v] == t && ParserCell(h, v)
            && (h[v].ArrayCell? ==> h[v].items != [] && h[v].items[|h[v].items| - 1] < |h|)
            && ToTree(h, t).Table? && e < |ToTree(h, t).entries| && ToTree(h, t).entries[e].value == ToTree(h, v)
  {
    var v := h[t].links[e].node;
    assert Kid(h[t], e) == v;
    assert ParserCell(h, v);
    if h[v].ArrayCell? {
      assert Kid(h[v], |h[v].items| - 1) == h[v].items[|h[v].items| - 1];
    }
  }

  lemma {:induction false} StepIntoTree(h: Heap, up: seq<nat>, p: seq<Key>, t: nat, e: nat)
    requires Stands(h, up, p, t) && e < |h[t].links|
    ensures var v := h[t].links[e].node;
            && v < |h| && (h[v].ArrayCell? ==> h[v].items != [] && h[v].items[|h[v].items| - 1] < |h|)
            && match StepInto(h, v)
               case Ok(u) => Passes(h, v) && Passed(h, v) == u && Enter(ToTree(h, v)) == Ok(ToTree(h, u))
               case Err(x) => Enter(ToTree(h, v)) == Err(x)
  {
    PartCell(h, up, p, t, e);
    var v := h[t].links[e].node;
    if h[v].ArrayCell? {
      assert Kid(h[v], |h[v].items| - 1) == h[v].items[|h[v].items| - 1];
    }
    if StepInto(h, v).Ok? {
      PassesTree(h, v);
    }
  }

  /** A header goes on through a part that exists, or ends there. */
  lemma {:induction false} EnterOld(h: Heap, up: seq<nat>, p: seq<Key>, t: nat, q: seq<Key>, aot: bool)
    requires Stands(h, up, p, t) && |q| > 1 && LinkOf(h[t].links, q[0]) < |h[t].links|
    ensures var v := h[t].links[LinkOf(h[t].links, q[0])].node;
            && v < |h| && (h[v].ArrayCell? ==> h[v].items != [] && h[v].items[|h[v].items| - 1] < |h|)
            && match StepInto(h, v)
               case Ok(u) => Stands(h, up, p + [q[0]], u)
               case Err(x) => Define(Doc(h), p + q, aot) == Err(x)
  {
    var e := LinkOf(h[t].links, q[0]);
    StepIntoTree(h, up, p, t, e);
    PartCell(h, up, p, t, e);
    var v := h[t].links[e].node;
    match StepInto(h, v)
    case Ok(u) =>
      assert Kid(h[t], e) == v;
      FollowsMore(h, 0, p, t, q[0]);
    case Err(x) =>
      FollowsTree(h, 0, p, t);
      LinkOfTree(h, t, q[0]);
      DefineLift(Doc(h), p, q, aot);
  }

  /** A header goes on through a part it has just made. */
  lemma {:induction false} EnterNew(h: Heap, up: seq<nat>, h': Heap, up': seq<nat>, p: seq<Key>, t: nat,
                                    q: seq<Key>, aot: bool)
    requires Stands(h, up, p, t) && |q| > 1 && LinkOf(h[t].links, q[0]) == |h[t].links|
    requires Links(h, up, h', up', t, q[0], TableCell(Implicit, []))
    ensures Stands(h', up', p + [q[0]], |h|) && h'[|h|].links == []
    ensures Define(Doc(h'), p + q, aot) == Define(Doc(h), p + q, aot)
  {
    assert ParserCell(h, t);
    LinkedAt(h, up, h', up', 0, p, t, q[0], TableCell(Implicit, []));
    CellsStill(h, up, h', up', t, |h| + 1);
    DefineStep(h, up, h', up', p, t, q, aot);
  }

  lemma {:induction false} LastNew(h: Heap, up: seq<nat>, h': Heap, up': seq<nat>, p: seq<Key>, t: nat, k: Key)
    requires Stands(h, up, p, t) && LinkOf(h[t].links, k) == |h[t].links|
    requires Links(h, up, h', up', t, k, TableCell(Explicit, []))
    ensures HeaderDone(h, up, p + [k], false, h', up', Ok(|h|))
  {
    assert ParserCell(h, t);
    LinkedAt(h, up, h', up', 0, p, t, k, TableCell(Explicit, []));
    CellsStill(h, up, h', up', t, |h| + 1);
    LinkOfTree(h, t, k);
    ToTreeFlag(h, t);
    DefineLift(Doc(h), p, [k], false);
  }

  lemma {:induction false} LastOld(h: Heap, up: seq<nat>, p: seq<Key>, t: nat, k: Key)
    requires Stands(h, up, p, t) && LinkOf(h[t].links, k) < |h[t].links|
    ensures var v := h[t].links[LinkOf(h[t].links, k)].node;
            && v < |h|
            && if h[v].TableCell? && h[v].flag.Implicit?
               then HeaderDone(h, up, p + [k], false, h[v := h[v].(flag := Explicit)], up, Ok(v))
               else HeaderDone(h, up, p + [k], false, h, up, Err(DefinedTwice))
  {
    var e := LinkOf(h[t].links, k);
    PartCell(h, up, p, t, e);
    var v := h[t].links[e].node;
    FollowsTree(h, 0, p, t);
    LinkOfTree(h, t, k);
    DefineLift(Doc(h), p, [k], false);
    if h[v].TableCell? {
      ToTreeFlag(h, v);
      if h[v].flag.Implicit? {
        MakeExplicit(h, up, p, t, k, v);
      }
    }
  }

  /** One more element of an array of tables that is there. */
  lemma {:induction false} ElementOld(h: Heap, up: seq<nat>, p: seq<Key>, t: nat, k: Key)
    requires Stands(h, up, p, t) && LinkOf(h[t].links, k) < |h[t].links|
    ensures var v := h[t].links[LinkOf(h[t].links, k)].node;
            && v < |h|
            && if h[v].ArrayCell? && h[v].aot
               then HeaderDone(h, up, p + [k], true, Pushed(h, v), up + [v], Ok(|h|))
               else HeaderDone(h, up, p + [k], true, h, up, Err(RedefinedAsAot))
  {
    var e := LinkOf(h[t].links, k);
    PartCell(h, up, p, t, e);
    assert ParserCell(h, t);
    var v := h[t].links[e].node;
    FollowsTree(h, 0, p, t);
    LinkOfTree(h, t, k);
    DefineLift(Doc(h), p, [k], true);
    if h[v].ArrayCell? && h[v].aot {
      PushElement(h, up, p, t, k, v);
    }
  }

  /** Making an empty array of tables and then its first element is what the
      first `[[path]]` header does. */
  lemma {:induction false} FirstElement(t: Tree, p: seq<Key>, k: Key)
    requires t.Table? && Leads(t, p) && !Get(t, p).flag.Inline? && IndexOf(Get(t, p).entries, k) == |Get(t, p).entries|
    ensures var b := Get(t, p);
            var a := b.(entries := b.entries + [Entry(k, Array(true, []))]);
            && Leads(Put(t, p, a), p)
            && Define(t, p + [k], true) == Ok(Put(Put(t, p, a), p, SetValue(a, |b.entries|, Array(true, [EmptyTable]))))
  {
    var b := Get(t, p);
    var a := b.(entries := b.entries + [Entry(k, Array(true, []))]);
    var s := SetValue(a, |b.entries|, Array(true, [EmptyTable]));
    assert s.entries == b.entries + [Entry(k, Array(true, [EmptyTable]))];
    DefineLift(t, p, [k], true);
    PutPut(t, p, a, s);
  }

  lemma {:induction false} ElementNewTree(h: Heap, up: seq<nat>, h': Heap, up': seq<nat>, p: seq<Key>, t: nat, k: Key)
    requires Stands(h, up, p, t) && LinkOf(h[t].links, k) == |h[t].links|
    requires Links(h, up, h', up', t, k, ArrayCell(true, [])) && h'[0].TableCell? && ParserCellsBut(h', |h|)
    requires Follows(h', 0, p, t) && LinkOf(h'[t].links, k) == |h[t].links|
    requires Leads(Doc(h), p) && Doc(h') == Put(Doc(h), p, ToTree(h', t))
    ensures var h2 := Pushed(h', |h|);
            && Shaped(h2, up' + [|h|]) && ParserCells(h2) && h2[0].TableCell? && Follows(h2, 0, p + [k], |h'|)
            && Leads(Doc(h'), p) && |ToTree(h, t).entries| < |ToTree(h', t).entries|
            && Doc(h2) == Put(Doc(h'), p, SetValue(ToTree(h', t), |ToTree(h, t).entries|, Array(true, [EmptyTable])))
  {
    hide Put, Leads, Follows;
    assert ParserCell(h, t);
    ToTreeFlag(h, t);
    PushElement(h', up', p, t, k, |h|);
    ToTreeBare(h', |h|);
    assert Bare(h'[|h|]).items + [EmptyTable] == [EmptyTable];
  }

  lemma {:induction false} ElementNew(h: Heap, up: seq<nat>, h': Heap, up': seq<nat>, p: seq<Key>, t: nat, k: Key)
    requires Stands(h, up, p, t) && LinkOf(h[t].links, k) == |h[t].links|
    requires Links(h, up, h', up', t, k, ArrayCell(true, []))
    ensures HeaderDone(h, up, p + [k], true, Pushed(h', |h|), up' + [|h|], Ok(|h'|))
  {
    assert ParserCell(h, t);
    LinkedAt(h, up, h', up', 0, p, t, k, ArrayCell(true, []));
    CellsStill(h, up, h', up', t, |h|);
    LinkOfTree(h, t, k);
    ToTreeFlag(h, t);
    FirstElement(Doc(h), p, k);
    ElementNewTree(h, up, h', up', p, t, k);
  }

  /** The verdict on the document before any missing part was made. */
  lemma {:induction false} HeaderDoneBefore(h0: Heap, up0: seq<nat>, p: seq<Key>, k: Key, t: nat, aot: bool,
                                            h: Heap, up: seq<nat>, h': Heap, up': seq<nat>, r: Result<nat>)
    requires Shaped(h0, up0) && h0 != [] && h0[0].TableCell? && Stands(h, up, p, t)
    requires Define(Doc(h), p + [k], aot) == Define(Doc(h0), p + [k], aot)
    requires (h == h0 && up == up0) || h[t].links == []
    requires HeaderDone(h, up, p + [k], aot, h', up', r)
    ensures HeaderDone(h0, up0, p + [k], aot, h', up', r)
  {
    if h[t].links == [] {
      FollowsTree(h, 0, p, t);
      LinkOfTree(h, t, k);
      ToTreeFlag(h, t);
      DefineLift(Doc(h), p, [k], aot);
    }
  }

  /** Where header resolution is after `i` parts: what is left to do from here
      is what there was to do at the start, and nothing has changed unless a
      part had to be made. */
  ghost predicate HeaderLoop(h0: Heap, up0: seq<nat>, parts: seq<Key>, aot: bool, i: nat, h: Heap, up: seq<nat>,
                             t: nat) {
    && i < |parts| && Shaped(h0, up0) && h0 != [] && h0[0].TableCell?
    && Stands(h, up, parts[..i], t)
    && Define(Doc(h), parts, aot) == Define(Doc(h0), parts, aot)
    && ((h == h0 && up == up0) || h[t].links == [])
  }

  lemma {:induction false} HeaderLoopNew(h0: Heap, up0: seq<nat>, parts: seq<Key>, aot: bool, i: nat,
                                         h: Heap, up: seq<nat>, t: nat, h': Heap, up': seq<nat>)
    requires HeaderLoop(h0, up0, parts, aot, i, h, up, t) && i + 1 < |parts|
    requires LinkOf(h[t].links, parts[i]) == |h[t].links|
    requires Links(h, up, h', up', t, parts[i], TableCell(Implicit, []))
    ensures HeaderLoop(h0, up0, parts, aot, i + 1, h', up', |h|)
  {
    assert parts == parts[..i] + parts[i..];
    assert parts[..i + 1] == parts[..i] + [parts[i]];
    EnterNew(h, up, h', up', parts[..i], t, parts[i..], aot);
  }

  lemma {:induction false} HeaderLoopOld(h0: Heap, up0: seq<nat>, parts: seq<Key>, aot: bool, i: nat,
                                         h: Heap, up: seq<nat>, t: nat)
    requires HeaderLoop(h0, up0, parts, aot, i, h, up, t) && i + 1 < |parts|
    requires LinkOf(h[t].links, parts[i]) < |h[t].links|
    ensures var v := h[t].links[LinkOf(h[t].links, parts[i])].node;
            && v < |h| && (h[v].ArrayCell? ==> h[v].items != [] && h[v].items[|h[v].items| - 1] < |h|)
            && StepInto(h, v) != Err(CorruptAot)
            && match StepInto(h, v)
               case Ok(u) => HeaderLoop(h0, up0, parts, aot, i + 1, h, up, u)
               case Err(x) => HeaderDone(h0, up0, parts, aot, h, up, Err(x)) && h == h0 && up == up0
  {
    assert parts == parts[..i] + parts[i..];
    assert parts[..i + 1] == parts[..i] + [parts[i]];
    var e := LinkOf(h[t].links, parts[i]);
    assert h[t].links != [];
    EnterOld(h, up, parts[..i], t, parts[i..], aot);
    PartCell(h, up, parts[..i], t, e);
    var v := h[t].links[e].node;
    if h[v].ArrayCell? {
      assert Kid(h[v], |h[v].items| - 1) == h[v].items[|h[v].items| - 1];
    }
  }

  lemma {:induction false} HeaderLoopEnd(h0: Heap, up0: seq<nat>, parts: seq<Key>, aot: bool, i: nat,
                                         h: Heap, up: seq<nat>, t: nat, h': Heap, up': seq<nat>, r: Result<nat>)
    requires HeaderLoop(h0, up0, parts, aot, i, h, up, t) && i + 1 == |parts|
    requires HeaderDone(h, up, parts[..i] + [parts[i]], aot, h', up', r)
    ensures HeaderDone(h0, up0, parts, aot, h', up', r)
  {
    assert parts == parts[..i] + [parts[i]];
    HeaderDoneBefore(h0, up0, parts[..i], parts[i], t, aot, h, up, h', up', r);
  }
}
