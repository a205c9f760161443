/** What the builder does to its document: a new last child in the container that
    is open, and nothing else. */
module Growth {
  import opened Document
  import opened Places
  import opened Safety
  import opened Arena
  import opened Builder

  /** There is a last child, and its address is its own. */
  ghost predicate HasLast(t: Tree) {
    (t.Table? && t.entries != [] && LastIsFound(t.entries)) || (t.Array? && t.items != [])
  }

  /** `n` last children lead from the tree to a container. */
  ghost predicate Reaches(t: Tree, n: nat)
    decreases n
  {
    !t.Leaf? && (n == 0 || (HasLast(t) && Reaches(LastChild(t), n - 1)))
  }

  /** No entry before the last one has its key. */
  ghost predicate LastIsFound(es: seq<Entry>)
    requires es != []
  {
    IndexOf(es, es[|es| - 1].key) == |es| - 1
  }

  ghost function LastChild(t: Tree): Tree
    requires HasLast(t)
  {
    if t.Table? then t.entries[|t.entries| - 1].value else t.items[|t.items| - 1]
  }

  ghost function LastSel(t: Tree): Sel
    requires HasLast(t)
  {
    if t.Table? then Field(t.entries[|t.entries| - 1].key) else Elem(|t.items| - 1)
  }

  ghost function LastAddress(t: Tree, n: nat): seq<Sel>
    requires Reaches(t, n)
    decreases n
  {
    if n == 0 then [] else [LastSel(t)] + LastAddress(LastChild(t), n - 1)
  }

  /** The container at the end of the chain. */
  ghost function LastContainer(t: Tree, n: nat): (c: Tree)
    requires Reaches(t, n)
    ensures !c.Leaf?
    decreases n
  {
    if n == 0 then t else LastContainer(LastChild(t), n - 1)
  }

  /** May take a new child under that key, or as its next item. */
  ghost predicate Takes(c: Tree, key: Maybe<Key>) {
    c.Array? || (c.Table? && key.Just? && IndexOf(c.entries, key.value) == |c.entries|)
  }

  ghost function NewAddress(t: Tree, n: nat, key: Maybe<Key>): seq<Sel>
    requires Reaches(t, n) && Takes(LastContainer(t, n), key)
  {
    var c := LastContainer(t, n);
    LastAddress(t, n) + [if c.Table? then Field(key.value) else Elem(|c.items|)]
  }

  lemma {:induction false} NewAddressFirst(t: Tree, n: nat, key: Maybe<Key>)
    requires n > 0 && Reaches(t, n) && Takes(LastContainer(t, n), key)
    ensures HasLast(t) && NewAddress(t, n, key)[0] == LastSel(t)
    ensures NewAddress(t, n, key)[1..] == NewAddress(LastChild(t), n - 1, key)
  {
  }

  ghost function WithLast(t: Tree, x: Tree): (r: Tree)
    requires HasLast(t)
  {
    if t.Table? then SetValue(t, |t.entries| - 1, x) else t.(items := t.items[|t.items| - 1 := x])
  }

  lemma {:induction false} GrowIsBelow(t: Tree, n: nat, key: Maybe<Key>, v: Tree)
    requires n > 0 && Reaches(t, n)
    ensures HasLast(t) && Grow(t, n, key, v) == WithLast(t, Grow(LastChild(t), n - 1, key, v))
  {
  }

  lemma {:induction false} LastAsItIs(t: Tree)
    requires HasLast(t)
    ensures WithLast(t, LastChild(t)) == t
  {
  }

  /** Replacing the last child shows at the addresses through it only. */
  lemma {:induction false} LastReplaced(t: Tree, x: Tree, addr: seq<Sel>)
    requires HasLast(t) && addr != []
    ensures At(WithLast(t, x), addr) == if addr[0] == LastSel(t) then At(x, addr[1..]) else At(t, addr)
  {
    if t.Table? && addr[0].Field? {
      IndexOfSetValue(t, |t.entries| - 1, x, addr[0].key);
    }
  }

  /** The child is new, and afterwards it is in its place. */
  lemma {:induction false} GrowLands(t: Tree, n: nat, key: Maybe<Key>, v: Tree)
    requires Reaches(t, n) && Takes(LastContainer(t, n), key)
    ensures At(t, NewAddress(t, n, key)) == Nothing
    ensures At(Grow(t, n, key, v), NewAddress(t, n, key)) == Just(v)
    decreases n
  {
    if n == 0 {
      if t.Table? {
        IndexOfAppend(t.entries, Entry(key.value, v), key.value);
      }
    } else {
      var x := LastChild(t);
      NewAddressFirst(t, n, key);
      GrowIsBelow(t, n, key, v);
      GrowLands(x, n - 1, key, v);
      hide Grow, NewAddress, Reaches, Takes, LastContainer, At;
      LastReplaced(t, Grow(x, n - 1, key, v), NewAddress(t, n, key));
      LastReplaced(t, x, NewAddress(t, n, key));
      LastAsItIs(t);
    }
  }

  /** Every address that does not lead to the new child or through it holds what it
      held. */
  lemma {:induction false} GrowMovesNothing(t: Tree, n: nat, key: Maybe<Key>, v: Tree, addr: seq<Sel>)
    requires Reaches(t, n) && Takes(LastContainer(t, n), key) && !Related(addr, NewAddress(t, n, key))
    ensures At(Grow(t, n, key, v), addr) == At(t, addr)
    decreases n
  {
    if n == 0 {
      if t.Table? && addr[0].Field? {
        IndexOfAppend(t.entries, Entry(key.value, v), addr[0].key);
      }
    } else {
      var x := LastChild(t);
      NewAddressFirst(t, n, key);
      GrowIsBelow(t, n, key, v);
      if addr[0] == NewAddress(t, n, key)[0] {
        NotRelatedBelow(addr, NewAddress(t, n, key));
        GrowMovesNothing(x, n - 1, key, v, addr[1..]);
      }
      hide Grow, NewAddress, Reaches, Takes, LastContainer, At, Related;
      LastReplaced(t, Grow(x, n - 1, key, v), addr);
      LastReplaced(t, x, addr);
      LastAsItIs(t);
    }
  }

  /** On the way there are the same kinds of container, and an array into which a
      section table goes becomes an array of tables. */
  lemma {:induction false} GrowKeepsKind(t: Tree, n: nat, key: Maybe<Key>, v: Tree)
    requires Reaches(t, n) && Takes(LastContainer(t, n), key)
    ensures var r := Grow(t, n, key, v);
            && (t.Table? ==> r.Table? && r.flag == t.flag)
            && (t.Array? ==> r.Array? && r.aot == (t.aot || (n == 0 && v.Table? && !v.flag.Inline?)
                                                   || (n == 0 && v.Array? && v.aot)))
  {
  }

  // -------------------------------------------------------------- the builder

  /** The last child of a cell with kids. */
  lemma {:induction false} LastKidTree(h: Heap, x: nat, c: nat)
    requires Ordered(h) && BuilderCells(h) && LastKid(h, x, c) && c < |h|
    ensures HasLast(ToTree(h, x)) && LastChild(ToTree(h, x)) == ToTree(h, c)
  {
    assert BuilderCell(h, x) && Kid(h[x], Count(h[x]) - 1) == c;
    if h[x].TableCell? {
      var links := h[x].links;
      var es := ToTree(h, x).entries;
      assert es[|es| - 1] == Entry(links[|links| - 1].key, ToTree(h, c));
      IndexOfIs(es, es[|es| - 1].key, |es| - 1);
    }
  }

  /** The containers that the builder has open are the chain of last children of
      its document, and the innermost is where the chain ends. */
  lemma {:induction false} StackIsChain(h: Heap, up: seq<nat>, stack: seq<BFrame>, i: nat)
    requires Sound(h, up, stack) && i < |stack|
    ensures stack[i].node < |h| && Reaches(ToTree(h, stack[i].node), |stack| - 1 - i)
    ensures LastContainer(ToTree(h, stack[i].node), |stack| - 1 - i) == ToTree(h, Top(stack).node)
    decreases |stack| - i
  {
    assert FrameOk(h, stack, i);
    if i + 1 < |stack| {
      assert LastKid(h, stack[i].node, stack[i + 1].node);
      StackIsChain(h, up, stack, i + 1);
      LastKidTree(h, stack[i].node, stack[i + 1].node);
    }
  }

  /** An element that the builder does not refuse is one that the open container can
      take. */
  lemma {:induction false} AcceptedIsTaken(h: Heap, up: seq<nat>, stack: seq<BFrame>, key: Maybe<Key>, isTable: bool)
    requires Sound(h, up, stack) && Refusal(h, Top(stack), key, isTable).Nothing?
    ensures Reaches(ToTree(h, 0), |stack| - 1)
    ensures Takes(LastContainer(ToTree(h, 0), |stack| - 1), key)
  {
    StackIsChain(h, up, stack, 0);
    assert FrameOk(h, stack, |stack| - 1);
    if h[Top(stack).node].TableCell? {
      LinkOfTree(h, Top(stack).node, key.value);
    }
  }

  /** Every element that the builder attaches lands in its document as the last
      child of the container that is open, where nothing was, and no other address
      shows a change. */
  lemma {:induction false} AttachmentLands(h: Heap, up: seq<nat>, stack: seq<BFrame>, key: Maybe<Key>, c: Cell)
    requires Sound(h, up, stack) && MayAttach(h, Top(stack), c) && Refusal(h, Top(stack), key, c.TableCell?).Nothing?
    ensures var f := Top(stack);
            var h' := h[f.node := Attached(h, f, key, c.TableCell?)] + [c];
            && Ordered(h') && Reaches(ToTree(h, 0), |stack| - 1)
            && Takes(LastContainer(ToTree(h, 0), |stack| - 1), key)
            && var to := NewAddress(ToTree(h, 0), |stack| - 1, key);
            && At(ToTree(h, 0), to) == Nothing && At(ToTree(h', 0), to) == Just(Bare(c))
            && forall addr | !Related(addr, to) :: At(ToTree(h', 0), addr) == At(ToTree(h, 0), addr)
  {
    AttachSound(h, up, stack, key, c);
    AcceptedIsTaken(h, up, stack, key, c.TableCell?);
    var t, n := ToTree(h, 0), |stack| - 1;
    GrowLands(t, n, key, Bare(c));
    forall addr | !Related(addr, NewAddress(t, n, key)) ensures At(Grow(t, n, key, Bare(c)), addr) == At(t, addr) {
      GrowMovesNothing(t, n, key, Bare(c), addr);
    }
  }
}
