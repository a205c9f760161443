/** Nodes as the document's arena holds them: cells that refer to one another
    by position, changed in place.  `ToTree` reads the tree back; the lemmas say
    what one change of a cell does to the trees around it. */
module Arena {
  import opened Sequences
  import opened Document
  import opened Places

  datatype Link = Link(key: Key, node: nat)

  /** A value is parsed in full before it is linked and not written again. */
  datatype Cell =
    | ValueCell(value: Tree)
    | TableCell(flag: Flag, links: seq<Link>)
    | ArrayCell(aot: bool, items: seq<nat>)

  type Heap = seq<Cell>

  function Count(c: Cell): nat {
    match c
    case ValueCell(_) => 0
    case TableCell(_, links) => |links|
    case ArrayCell(_, items) => |items|
  }

  function Kid(c: Cell, a: nat): nat
    requires a < Count(c)
  {
    if c.TableCell? then c.links[a].node else c.items[a]
  }

  /** Cells refer to later cells only. */
  ghost predicate Ordered(h: Heap) {
    forall i, a :: 0 <= i < |h| && 0 <= a < Count(h[i]) ==> i < Kid(h[i], a) < |h|
  }

  /** Every cell is referred to from one place only; `up` names the referrer. */
  ghost predicate Shaped(h: Heap, up: seq<nat>) {
    && |up| == |h|
    && Ordered(h)
    && (forall i, a :: 0 <= i < |h| && 0 <= a < Count(h[i]) ==> up[Kid(h[i], a)] == i)
    && (forall i, a, b :: 0 <= i < |h| && 0 <= a < b < Count(h[i]) ==> Kid(h[i], a) != Kid(h[i], b))
  }

  ghost function ToTree(h: Heap, i: nat): Tree
    requires Ordered(h) && i < |h|
    decreases |h| - i
  {
    match h[i]
    case ValueCell(v) => v
    case TableCell(flag, links) =>
      Table(flag, seq(|links|, a requires 0 <= a < |links| =>
        assert Kid(h[i], a) == links[a].node; Entry(links[a].key, ToTree(h, links[a].node))))
    case ArrayCell(aot, items) =>
      Array(aot, seq(|items|, a requires 0 <= a < |items| =>
        assert Kid(h[i], a) == items[a]; ToTree(h, items[a])))
  }

  /** The tree of a cell that refers to nothing yet. */
  function Bare(c: Cell): Tree {
    match c
    case ValueCell(v) => v
    case TableCell(flag, _) => Table(flag, [])
    case ArrayCell(aot, _) => Array(aot, [])
  }

  lemma {:induction false} ToTreeBare(h: Heap, i: nat)
    requires Ordered(h) && i < |h| && Count(h[i]) == 0
    ensures ToTree(h, i) == Bare(h[i])
  {
  }

  lemma {:induction false} ToTreeFlag(h: Heap, i: nat)
    requires Ordered(h) && i < |h| && h[i].TableCell?
    ensures ToTree(h, i).Table? && ToTree(h, i).flag == h[i].flag && |ToTree(h, i).entries| == |h[i].links|
  {
  }

  /** The position of key `k`, or the number of links when it is absent: what
      the key index answers. */
  function LinkOf(links: seq<Link>, k: Key): (i: nat)
    ensures i <= |links|
    ensures i < |links| ==> links[i].key == k
    ensures forall j :: 0 <= j < i ==> links[j].key != k
  {
    if links == [] then 0
    else if links[0].key == k then 0
    else 1 + LinkOf(links[1..], k)
  }

  lemma {:induction false} LinkOfTree(h: Heap, i: nat, k: Key)
    requires Ordered(h) && i < |h| && h[i].TableCell?
    ensures IndexOf(ToTree(h, i).entries, k) == LinkOf(h[i].links, k)
  {
    IndexOfIs(ToTree(h, i).entries, k, LinkOf(h[i].links, k));
  }

  // -------------------------------------------------------------- ancestors

  /** `x` is `t` or refers to it through other cells. */
  ghost predicate Above(up: seq<nat>, x: nat, t: nat)
    decreases t
  {
    x == t || (t < |up| && up[t] < t && Above(up, x, up[t]))
  }

  lemma {:induction false} AboveIsBefore(up: seq<nat>, x: nat, t: nat)
    requires Above(up, x, t)
    ensures x <= t
    decreases t
  {
    if x != t {
      AboveIsBefore(up, x, up[t]);
    }
  }

  lemma {:induction false} AboveStep(up: seq<nat>, c: nat, t: nat)
    requires c < |up| && up[c] < c && Above(up, c, t)
    ensures Above(up, up[c], t)
    decreases t
  {
    if c != t {
      AboveStep(up, c, up[t]);
    }
  }

  /** Two cells with one referrer cannot both be above a third. */
  lemma {:induction false} AboveUnique(up: seq<nat>, a: nat, b: nat, t: nat)
    requires a < |up| && b < |up| && up[a] == up[b] && up[a] < a && up[b] < b
    requires Above(up, a, t) && Above(up, b, t)
    ensures a == b
    decreases t
  {
    if a == t && b != t {
      AboveIsBefore(up, b, up[t]);
    } else if b == t && a != t {
      AboveIsBefore(up, a, up[t]);
    } else if a != t {
      AboveUnique(up, a, b, up[t]);
    }
  }

  // ------------------------------------------------------------------ frame

  /** `h'` differs from `h` in cell `t` and in new cells only. */
  ghost predicate ChangesOnly(h: Heap, up: seq<nat>, h': Heap, up': seq<nat>, t: nat) {
    && Shaped(h, up) && Shaped(h', up') && t < |h| <= |h'|
    && (forall i :: 0 <= i < |h| && i != t ==> h'[i] == h[i])
    && (forall i :: 0 <= i < |h| ==> up'[i] == up[i])
  }

  lemma {:induction false} Untouched(h: Heap, up: seq<nat>, h': Heap, up': seq<nat>, t: nat, x: nat)
    requires ChangesOnly(h, up, h', up', t) && x < |h| && !Above(up, x, t)
    ensures ToTree(h', x) == ToTree(h, x)
    decreases |h| - x
  {
    forall a | 0 <= a < Count(h[x]) ensures ToTree(h', Kid(h[x], a)) == ToTree(h, Kid(h[x], a)) {
      var c := Kid(h[x], a);
      if Above(up, c, t) {
        AboveStep(up, c, t);
      }
      Untouched(h, up, h', up', t, c);
    }
    match h[x]
    case ValueCell(_) =>
    case TableCell(_, links) =>
      forall a | 0 <= a < |links| ensures ToTree(h', x).entries[a] == ToTree(h, x).entries[a] {
        assert Kid(h[x], a) == links[a].node;
      }
    case ArrayCell(_, items) =>
      forall a | 0 <= a < |items| ensures ToTree(h', x).items[a] == ToTree(h, x).items[a] {
        assert Kid(h[x], a) == items[a];
      }
  }

  lemma {:induction false} UntouchedKid(h: Heap, up: seq<nat>, h': Heap, up': seq<nat>, t: nat, x: nat, a: nat)
    requires ChangesOnly(h, up, h', up', t) && t <= x < |h| && a < Count(h[x])
    ensures ToTree(h', Kid(h[x], a)) == ToTree(h, Kid(h[x], a))
  {
    var c := Kid(h[x], a);
    if Above(up, c, t) {
      AboveIsBefore(up, c, t);
    }
    Untouched(h, up, h', up', t, c);
  }

  // ------------------------------------------------------------------ paths

  /** A path of keys leads from table cell `i` to table cell `t`, as header
      resolution walks it. */
  ghost predicate Follows(h: Heap, i: nat, path: seq<Key>, t: nat)
    requires Ordered(h) && i < |h|
    decreases |h| - i
  {
    h[i].TableCell? &&
    if path == [] then i == t
    else
      var a := LinkOf(h[i].links, path[0]);
      a < |h[i].links| && Kid(h[i], a) < |h| &&
      Passes(h, h[i].links[a].node) && i < Passed(h, h[i].links[a].node)
        && Follows(h, Passed(h, h[i].links[a].node), path[1..], t)
  }

  /** Header resolution can walk through cell `v`. */
  ghost predicate Passes(h: Heap, v: nat)
    requires Ordered(h) && v < |h|
  {
    match h[v]
    case ValueCell(_) => false
    case TableCell(flag, _) => !flag.Inline?
    case ArrayCell(aot, items) => aot && items != [] && Kid(h[v], |items| - 1) < |h| && h[items[|items| - 1]].TableCell?
  }

  /** The table cell that walking through cell `v` arrives at. */
  ghost function Passed(h: Heap, v: nat): (t: nat)
    requires Ordered(h) && v < |h| && Passes(h, v)
    ensures v <= t < |h| && h[t].TableCell?
  {
    if h[v].TableCell? then v else
    assert Kid(h[v], |h[v].items| - 1) == h[v].items[|h[v].items| - 1];
    h[v].items[|h[v].items| - 1]
  }

  lemma {:induction false} PassesTree(h: Heap, v: nat)
    requires Ordered(h) && v < |h| && Passes(h, v)
    ensures Enter(ToTree(h, v)) == Ok(ToTree(h, Passed(h, v)))
  {
    if h[v].ArrayCell? {
      var n := |h[v].items|;
      assert Kid(h[v], n - 1) == h[v].items[n - 1];
      assert ToTree(h, v).items[n - 1] == ToTree(h, h[v].items[n - 1]);
    }
  }

  lemma {:induction false} FollowsTree(h: Heap, i: nat, path: seq<Key>, t: nat)
    requires Ordered(h) && i < |h| && Follows(h, i, path, t)
    ensures i <= t < |h| && h[t].TableCell? && ToTree(h, i).Table?
    ensures Leads(ToTree(h, i), path) && Get(ToTree(h, i), path) == ToTree(h, t)
    decreases |h| - i
  {
    if path != [] {
      var a := LinkOf(h[i].links, path[0]);
      LinkOfTree(h, i, path[0]);
      var v := h[i].links[a].node;
      assert Kid(h[i], a) == v;
      PassesTree(h, v);
      FollowsTree(h, Passed(h, v), path[1..], t);
      assert ToTree(h, i).entries[a].value == ToTree(h, v);
    }
  }

  lemma {:induction false} FollowsAbove(h: Heap, up: seq<nat>, i: nat, path: seq<Key>, t: nat)
    requires Shaped(h, up) && i < |h| && Follows(h, i, path, t)
    ensures Above(up, i, t)
    decreases |h| - i
  {
    if path != [] {
      var a := LinkOf(h[i].links, path[0]);
      var v := h[i].links[a].node;
      assert Kid(h[i], a) == v;
      var u := Passed(h, v);
      FollowsAbove(h, up, u, path[1..], t);
      if u != v {
        assert Kid(h[v], |h[v].items| - 1) == u;
        AboveStep(up, u, t);
      }
      AboveStep(up, v, t);
    }
  }

  /** One more part. */
  lemma {:induction false} FollowsMore(h: Heap, i: nat, path: seq<Key>, t: nat, k: Key)
    requires Ordered(h) && i < |h| && Follows(h, i, path, t) && t < |h| && h[t].TableCell?
    requires var a := LinkOf(h[t].links, k); a < |h[t].links| && Kid(h[t], a) < |h| && Passes(h, h[t].links[a].node)
    ensures Follows(h, i, path + [k], Passed(h, h[t].links[LinkOf(h[t].links, k)].node))
    decreases |h| - i
  {
    if path == [] {
      assert (path + [k])[1..] == [];
      assert Kid(h[t], LinkOf(h[t].links, k)) > t;
    } else {
      Concat(path, [k]);
      var a := LinkOf(h[i].links, path[0]);
      assert Kid(h[i], a) == h[i].links[a].node;
      FollowsMore(h, Passed(h, h[i].links[a].node), path[1..], t, k);
    }
  }

  /** `h'` differs from `h` in cell `w` at or below table cell `t` and in new
      cells only; what header resolution could walk through it still can. */
  ghost predicate ChangesUnder(h: Heap, up: seq<nat>, h': Heap, up': seq<nat>, t: nat, w: nat) {
    && ChangesOnly(h, up, h', up', w) && t < |h| && Above(up, t, w)
    && h[t].TableCell? && h'[t].TableCell?
    && (h'[t].flag.Inline? ==> h[t].flag.Inline?)
  }

  lemma {:induction false} PassesStill(h: Heap, up: seq<nat>, h': Heap, up': seq<nat>, t: nat, w: nat, v: nat)
    requires ChangesUnder(h, up, h', up', t, w) && v < |h| && Passes(h, v) && Passed(h, v) <= t
    ensures Passes(h', v) && Passed(h', v) == Passed(h, v)
  {
    AboveIsBefore(up, t, w);
    if h[v].ArrayCell? {
      assert Kid(h[v], |h[v].items| - 1) == Passed(h, v);
    }
  }

  /** Changing the table at the end of a path leaves the path as it was. */
  lemma {:induction false} FollowsStill(h: Heap, up: seq<nat>, h': Heap, up': seq<nat>, i: nat, path: seq<Key>,
                                        t: nat, w: nat)
    requires ChangesUnder(h, up, h', up', t, w) && i < |h| && Follows(h, i, path, t)
    ensures Follows(h', i, path, t)
    decreases |h| - i
  {
    if path != [] {
      var a := LinkOf(h[i].links, path[0]);
      var v := h[i].links[a].node;
      assert Kid(h[i], a) == v;
      FollowsTree(h, Passed(h, v), path[1..], t);
      PassesStill(h, up, h', up', t, w, v);
      FollowsStill(h, up, h', up', Passed(h, v), path[1..], t, w);
      AboveIsBefore(up, t, w);
      assert h'[i] == h[i];
    }
  }

  /** A table's tree when the change lies below its entry `a`. */
  lemma {:induction false} ChangedBelow(h: Heap, up: seq<nat>, h': Heap, up': seq<nat>, t: nat, i: nat, a: nat)
    requires ChangesOnly(h, up, h', up', t) && i < |h| && i != t && h[i].TableCell?
    requires a < |h[i].links| && h[i].links[a].node < |h| && Above(up, h[i].links[a].node, t)
    ensures h[i].links[a].node < |h'| && ToTree(h', i) == SetValue(ToTree(h, i), a, ToTree(h', h[i].links[a].node))
  {
    var v := h[i].links[a].node;
    assert Kid(h[i], a) == v;
    forall b | 0 <= b < |h[i].links| && b != a ensures ToTree(h', i).entries[b] == ToTree(h, i).entries[b] {
      var c := Kid(h[i], b);
      if Above(up, c, t) {
        AboveUnique(up, c, v, t);
      }
      Untouched(h, up, h', up', t, c);
    }
    assert ToTree(h', i).entries[a] == Entry(h[i].links[a].key, ToTree(h', v));
    assert ToTree(h', i).entries == SetValue(ToTree(h, i), a, ToTree(h', v)).entries;
  }

  lemma {:induction false} AboveTransitive(up: seq<nat>, a: nat, b: nat, c: nat)
    requires Above(up, a, b) && Above(up, b, c)
    ensures Above(up, a, c)
    decreases c
  {
    if b != c {
      AboveTransitive(up, a, b, up[c]);
    }
  }

  /** Changing the table a path leads to changes the tree in that place only. */
  lemma {:induction false} FollowsPut(h: Heap, up: seq<nat>, h': Heap, up': seq<nat>, i: nat, path: seq<Key>,
                                      t: nat, w: nat)
    requires ChangesUnder(h, up, h', up', t, w) && i < |h| && Follows(h, i, path, t)
    ensures ToTree(h, i).Table? && Leads(ToTree(h, i), path) && ToTree(h', t).Table?
    ensures ToTree(h', i) == Put(ToTree(h, i), path, ToTree(h', t))
    decreases |h| - i
  {
    FollowsTree(h, i, path, t);
    if path != [] {
      var a := LinkOf(h[i].links, path[0]);
      var v := h[i].links[a].node;
      assert Kid(h[i], a) == v;
      var u := Passed(h, v);
      FollowsTree(h, u, path[1..], t);
      PassesTree(h, v);
      FollowsPut(h, up, h', up', u, path[1..], t, w);
      FollowsAbove(h, up, u, path[1..], t);
      AboveTransitive(up, u, t, w);
      AboveIsBefore(up, t, w);
      LinkOfTree(h, i, path[0]);
      if u != v {
        assert Kid(h[v], |h[v].items| - 1) == u;
        AboveStep(up, u, w);
        LeaveCell(h, up, h', up', w, v);
      }
      ChangedBelow(h, up, h', up', w, i, a);
      assert ToTree(h, i).entries[a].value == ToTree(h, v);
    }
  }

  /** Below an array of tables only the last element's tree changes. */
  lemma {:induction false} LeaveCell(h: Heap, up: seq<nat>, h': Heap, up': seq<nat>, t: nat, v: nat)
    requires ChangesOnly(h, up, h', up', t) && v < |h| && v != t && Passes(h, v) && h[v].ArrayCell?
    requires Above(up, Passed(h, v), t) && ToTree(h', Passed(h, v)).Table?
    ensures Enter(ToTree(h, v)).Ok?
    ensures ToTree(h', v) == Leave(ToTree(h, v), ToTree(h', Passed(h, v)))
  {
    PassesTree(h, v);
    var u := Passed(h, v);
    var n := |h[v].items|;
    assert Kid(h[v], n - 1) == u;
    forall b | 0 <= b < n - 1 ensures ToTree(h', v).items[b] == ToTree(h, v).items[b] {
      var c := Kid(h[v], b);
      if Above(up, c, t) {
        AboveUnique(up, c, u, t);
      }
      Untouched(h, up, h', up', t, c);
    }
    assert ToTree(h', v).items[n - 1] == ToTree(h', u);
    assert ToTree(h', v).items == ToTree(h, v).items[n - 1 := ToTree(h', u)];
  }

  // ---------------------------------------------------------------- changes

  /** Cell `t` refers to the new cell `c` and to nothing else that is new. */
  ghost predicate AddsKid(h: Heap, t: nat, cell: Cell) {
    && t < |h|
    && Count(cell) == Count(h[t]) + 1 && Kid(cell, Count(h[t])) == |h|
    && forall a :: 0 <= a < Count(h[t]) ==> Kid(cell, a) == Kid(h[t], a)
  }

  lemma {:induction false} AddKid(h: Heap, up: seq<nat>, t: nat, cell: Cell, c: Cell)
    requires Shaped(h, up) && AddsKid(h, t, cell) && Count(c) == 0
    ensures ChangesOnly(h, up, h[t := cell] + [c], up + [t], t)
  {
    var h', up' := h[t := cell] + [c], up + [t];
    forall i, a | 0 <= i < |h'| && 0 <= a < Count(h'[i])
      ensures i < Kid(h'[i], a) < |h'| && up'[Kid(h'[i], a)] == i
    {
      assert i < |h|;
      if i == t && a == Count(h[t]) {
      } else {
        assert Kid(h'[i], a) == Kid(h[i], a);
      }
    }
    forall i, a, b | 0 <= i < |h'| && 0 <= a < b < Count(h'[i]) ensures Kid(h'[i], a) != Kid(h'[i], b) {
      assert Kid(h'[i], a) == Kid(h[i], a);
      if i == t && b == Count(h[t]) {
      } else {
        assert Kid(h'[i], b) == Kid(h[i], b);
      }
    }
  }

  /** A new entry at the end of a table. */
  lemma {:induction false} AddEntry(h: Heap, up: seq<nat>, t: nat, k: Key, c: Cell)
    requires Shaped(h, up) && t < |h| && h[t].TableCell? && Count(c) == 0
    ensures var h' := h[t := TableCell(h[t].flag, h[t].links + [Link(k, |h|)])] + [c];
            && ChangesOnly(h, up, h', up + [t], t)
            && ToTree(h', t) == Table(h[t].flag, ToTree(h, t).entries + [Entry(k, Bare(c))])
  {
    var cell := TableCell(h[t].flag, h[t].links + [Link(k, |h|)]);
    var h' := h[t := cell] + [c];
    AddKid(h, up, t, cell, c);
    forall a | 0 <= a < |h[t].links| ensures ToTree(h', t).entries[a] == ToTree(h, t).entries[a] {
      assert Kid(h[t], a) == h[t].links[a].node;
      UntouchedKid(h, up, h', up + [t], t, t, a);
    }
    assert h'[t] == cell;
    ToTreeBare(h', |h|);
    assert ToTree(h', t).entries[|h[t].links|] == Entry(k, Bare(c));
  }

  /** A new element at the end of an array. */
  lemma {:induction false} AddItem(h: Heap, up: seq<nat>, t: nat, aot: bool, c: Cell)
    requires Shaped(h, up) && t < |h| && h[t].ArrayCell? && Count(c) == 0
    ensures var h' := h[t := ArrayCell(aot, h[t].items + [|h|])] + [c];
            && ChangesOnly(h, up, h', up + [t], t)
            && ToTree(h', t) == Array(aot, ToTree(h, t).items + [Bare(c)])
  {
    var cell := ArrayCell(aot, h[t].items + [|h|]);
    var h' := h[t := cell] + [c];
    AddKid(h, up, t, cell, c);
    forall a | 0 <= a < |h[t].items| ensures ToTree(h', t).items[a] == ToTree(h, t).items[a] {
      assert Kid(h[t], a) == h[t].items[a];
      UntouchedKid(h, up, h', up + [t], t, t, a);
    }
    assert h'[t] == cell;
    ToTreeBare(h', |h|);
    assert ToTree(h', t).items[|h[t].items|] == Bare(c);
  }

  /** A table whose flag changes keeps its entries. */
  lemma {:induction false} SetFlag(h: Heap, up: seq<nat>, t: nat, flag: Flag)
    requires Shaped(h, up) && t < |h| && h[t].TableCell?
    ensures var h' := h[t := h[t].(flag := flag)];
            && ChangesOnly(h, up, h', up, t)
            && ToTree(h', t) == Table(flag, ToTree(h, t).entries)
  {
    var h' := h[t := h[t].(flag := flag)];
    forall i, a | 0 <= i < |h'| && 0 <= a < Count(h'[i]) ensures Kid(h'[i], a) == Kid(h[i], a) {
    }
    assert Shaped(h', up) by {
      forall i, a, b | 0 <= i < |h'| && 0 <= a < b < Count(h'[i]) ensures Kid(h'[i], a) != Kid(h'[i], b) {
        assert Kid(h[i], a) != Kid(h[i], b);
      }
    }
    forall a | 0 <= a < |h[t].links| ensures ToTree(h', t).entries[a] == ToTree(h, t).entries[a] {
      assert Kid(h[t], a) == h[t].links[a].node;
      UntouchedKid(h, up, h', up, t, t, a);
    }
  }
}
