/** The document builder: puts values and opens and closes containers on a
    stack, over the same arena as the parser.  Every state it can reach, after
    any operation accepted or refused, holds a well-formed document. */
module Builder {
  import opened Document
  import opened Statements
  import opened Content
  import opened RoundTrip
  import opened Arena

  datatype Nature = Undecided | InlineItems | SectionItems

  datatype BFrame = BFrame(node: nat, isArray: bool, nature: Nature)

  datatype Fault = BadState | BadArgument | TooDeep

  const BUILDER_MAX_DEPTH: nat := 512

  // ------------------------------------------------------------------ cells

  /** A cell whose text is inline. */
  ghost predicate InnerCell(h: Heap, i: nat)
    requires i < |h|
  {
    match h[i]
    case ValueCell(v) => v.Leaf?
    case TableCell(flag, _) => flag.Inline?
    case ArrayCell(aot, _) => !aot
  }

  ghost predicate DistinctLinks(links: seq<Link>) {
    forall a, b :: 0 <= a < b < |links| ==> links[a].key != links[b].key
  }

  /** What a cell may hold: inline containers hold inline cells, arrays of
      tables hold section tables and at least one. */
  ghost predicate BuilderCell(h: Heap, i: nat)
    requires Ordered(h) && i < |h|
  {
    match h[i]
    case ValueCell(v) => v.Leaf?
    case TableCell(flag, links) =>
      (flag.Explicit? || flag.Inline?) && DistinctLinks(links) && (flag.Inline? ==> KidsAreInner(h, i))
    case ArrayCell(aot, items) => if aot then items != [] && KidsAreSections(h, i) else KidsAreInner(h, i)
  }

  ghost predicate KidsAreInner(h: Heap, i: nat)
    requires Ordered(h) && i < |h|
  {
    forall a :: 0 <= a < Count(h[i]) ==> Kid(h[i], a) < |h| && InnerCell(h, Kid(h[i], a))
  }

  ghost predicate KidsAreSections(h: Heap, i: nat)
    requires Ordered(h) && i < |h|
  {
    forall a :: 0 <= a < Count(h[i]) ==>
      Kid(h[i], a) < |h| && h[Kid(h[i], a)].TableCell? && h[Kid(h[i], a)].flag.Explicit?
  }

  ghost predicate BuilderCells(h: Heap)
    requires Ordered(h)
  {
    forall i :: 0 <= i < |h| ==> BuilderCell(h, i)
  }

  lemma {:induction false} InnerTree(h: Heap, i: nat)
    requires Ordered(h) && BuilderCells(h) && i < |h| && InnerCell(h, i)
    ensures IsInner(ToTree(h, i))
    decreases |h| - i
  {
    assert BuilderCell(h, i);
    forall a | 0 <= a < Count(h[i]) ensures Kid(h[i], a) < |h| && IsInner(ToTree(h, Kid(h[i], a))) {
      InnerTree(h, Kid(h[i], a));
    }
    match h[i]
    case ValueCell(_) =>
    case TableCell(_, links) =>
      var t := ToTree(h, i);
      forall e | e in t.entries ensures IsInner(e.value) {
        var a :| 0 <= a < |t.entries| && t.entries[a] == e;
        assert Kid(h[i], a) == links[a].node;
      }
    case ArrayCell(_, items) =>
      var t := ToTree(h, i);
      forall x | x in t.items ensures IsInner(x) {
        var a :| 0 <= a < |t.items| && t.items[a] == x;
        assert Kid(h[i], a) == items[a];
      }
  }

  /** Cells as the builder makes them are the cells of a well-formed tree. */
  lemma {:induction false} BuilderTree(h: Heap, i: nat)
    requires Ordered(h) && BuilderCells(h) && i < |h|
    ensures WellFormed(ToTree(h, i))
    ensures h[i].TableCell? && h[i].flag.Explicit? ==> IsSectionTable(ToTree(h, i))
    decreases |h| - i
  {
    assert BuilderCell(h, i);
    if InnerCell(h, i) {
      InnerTree(h, i);
    }
    forall a | 0 <= a < Count(h[i]) ensures Kid(h[i], a) < |h| && WellFormed(ToTree(h, Kid(h[i], a))) {
      BuilderTree(h, Kid(h[i], a));
    }
    match h[i]
    case ValueCell(_) =>
    case TableCell(_, links) =>
      var t := ToTree(h, i);
      forall e | e in t.entries ensures WellFormed(e.value) {
        var a :| 0 <= a < |t.entries| && t.entries[a] == e;
        assert Kid(h[i], a) == links[a].node;
      }
    case ArrayCell(aot, items) =>
      var t := ToTree(h, i);
      forall x | x in t.items && aot ensures IsSectionTable(x) && WellFormed(x) {
        var a :| 0 <= a < |t.items| && t.items[a] == x;
        assert Kid(h[i], a) == items[a];
        BuilderTree(h, items[a]);
      }
  }

  // ------------------------------------------------------------- last kids

  /** The last kid of cell `i`, where the open containers are. */
  ghost predicate LastKid(h: Heap, i: nat, c: nat) {
    i < |h| && Count(h[i]) > 0 && Kid(h[i], Count(h[i]) - 1) == c
  }

  /** The stack is a chain of last kids from cell `i` on. */
  ghost predicate Chain(h: Heap, stack: seq<BFrame>) {
    stack != [] && stack[0].node < |h| &&
    forall i :: 0 <= i < |stack| - 1 ==> LastKid(h, stack[i].node, stack[i + 1].node)
  }

  /** `t` with `v` appended to the container that `n` last children lead to; an
      array that gets a section table becomes an array of tables. */
  function Grow(t: Tree, n: nat, key: Maybe<Key>, v: Tree): Tree
    decreases n
  {
    match t
    case Leaf(_) => t
    case Table(flag, es) =>
      if n == 0 then (if key.Just? then Table(flag, es + [Entry(key.value, v)]) else t)
      else if es == [] then t
      else
        var last := es[|es| - 1];
        Table(flag, es[..|es| - 1] + [Entry(last.key, Grow(last.value, n - 1, key, v))])
    case Array(aot, items) =>
      if n == 0 then Array(aot || IsSection(v), items + [v])
      else if items == [] then t
      else Array(aot, items[..|items| - 1] + [Grow(items[|items| - 1], n - 1, key, v)])
  }

  /** A change at the end of a chain of last kids grows every tree on it. */
  lemma {:induction false} GrowChain(h: Heap, up: seq<nat>, h': Heap, up': seq<nat>, stack: seq<BFrame>, i: nat,
                                     key: Maybe<Key>, v: Tree)
    requires Chain(h, stack) && i < |stack|
    requires stack[|stack| - 1].node < |h| && ChangesOnly(h, up, h', up', stack[|stack| - 1].node)
    requires ToTree(h', stack[|stack| - 1].node) == Grow(ToTree(h, stack[|stack| - 1].node), 0, key, v)
    ensures stack[i].node < |h| && Above(up, stack[i].node, stack[|stack| - 1].node)
    ensures ToTree(h', stack[i].node) == Grow(ToTree(h, stack[i].node), |stack| - 1 - i, key, v)
    decreases |stack| - i
  {
    hide ToTree, Grow;
    var t := stack[|stack| - 1].node;
    if i + 1 < |stack| {
      var x, c := stack[i].node, stack[i + 1].node;
      assert LastKid(h, x, c);
      if i > 0 {
        assert LastKid(h, stack[i - 1].node, x);
      }
      var n := Count(h[x]);
      assert Kid(h[x], n - 1) == c;
      GrowChain(h, up, h', up', stack, i + 1, key, v);
      AboveStep(up, c, t);
      AboveIsBefore(up, c, t);
      assert h'[x] == h[x];
      forall a | 0 <= a < n - 1 ensures ToTree(h', Kid(h[x], a)) == ToTree(h, Kid(h[x], a)) {
        var k := Kid(h[x], a);
        if Above(up, k, t) {
          AboveUnique(up, k, c, t);
        }
        Untouched(h, up, h', up', t, k);
      }
      GrownLast(h, h', x, c, |stack| - 2 - i, key, v);
    }
  }

  /** The tree of a cell whose last kid's tree has grown. */
  lemma {:induction false} GrownLast(h: Heap, h': Heap, x: nat, c: nat, n: nat, key: Maybe<Key>, v: Tree)
    requires Ordered(h) && Ordered(h') && x < |h| <= |h'| && h'[x] == h[x] && LastKid(h, x, c) && c < |h|
    requires forall a :: 0 <= a < Count(h[x]) - 1 ==>
               Kid(h[x], a) < |h| && ToTree(h', Kid(h[x], a)) == ToTree(h, Kid(h[x], a))
    requires ToTree(h', c) == Grow(ToTree(h, c), n, key, v)
    ensures ToTree(h', x) == Grow(ToTree(h, x), n + 1, key, v)
  {
    match h[x]
    case ValueCell(_) =>
    case TableCell(flag, links) =>
      var es, es' := ToTree(h, x).entries, ToTree(h', x).entries;
      var last := |links| - 1;
      assert Kid(h[x], last) == links[last].node;
      forall a | 0 <= a < last ensures es'[a] == es[a] {
        assert Kid(h[x], a) == links[a].node;
      }
      assert es' == es[..last] + [Entry(es[last].key, Grow(es[last].value, n, key, v))];
    case ArrayCell(aot, items) =>
      var xs, xs' := ToTree(h, x).items, ToTree(h', x).items;
      var last := |items| - 1;
      assert Kid(h[x], last) == items[last];
      forall a | 0 <= a < last ensures xs'[a] == xs[a] {
        assert Kid(h[x], a) == items[a];
      }
      assert xs' == xs[..last] + [Grow(xs[last], n, key, v)];
  }

  // ----------------------------------------------------------------- states

  /** A frame agrees with its cell; an array that may still become an array of
      tables is empty and stands in a section table. */
  ghost predicate FrameOk(h: Heap, stack: seq<BFrame>, i: nat)
    requires i < |stack|
  {
    var f := stack[i];
    && f.node < |h|
    && (f.isArray ==>
          && h[f.node].ArrayCell?
          && (f.nature.SectionItems? <==> h[f.node].aot)
          && (f.nature.Undecided? ==>
                h[f.node].items == [] && i > 0 && stack[i - 1].node < |h| && IsSectionCell(h, stack[i - 1].node)))
    && (!f.isArray ==> h[f.node].TableCell?)
  }

  ghost predicate IsSectionCell(h: Heap, i: nat)
    requires i < |h|
  {
    h[i].TableCell? && h[i].flag.Explicit?
  }

  /** The open stack is a chain of last kids from the root table to the current
      container, and every cell holds what it may hold. */
  ghost predicate Sound(h: Heap, up: seq<nat>, stack: seq<BFrame>) {
    && Shaped(h, up) && BuilderCells(h)
    && Chain(h, stack) && stack[0] == BFrame(0, false, Undecided) && IsSectionCell(h, 0)
    && FrameOk(h, stack, |stack| - 1)
    && (forall i :: 0 <= i < |stack| ==> FrameOk(h, stack, i))
  }

  ghost function Top(stack: seq<BFrame>): BFrame
    requires stack != []
  {
    stack[|stack| - 1]
  }

  /** Nothing that refers to cell `w` minds its change. */
  lemma {:induction false} CellsStay(h: Heap, up: seq<nat>, h': Heap, up': seq<nat>, w: nat)
    requires ChangesOnly(h, up, h', up', w) && |h'| == |h| + 1
    requires BuilderCells(h) && BuilderCell(h', w) && BuilderCell(h', |h|)
    requires h[w].TableCell? ==> h'[w].TableCell? && h'[w].flag == h[w].flag
    requires h[w].ArrayCell? ==> h'[w].ArrayCell?
    requires InnerCell(h, w) && !InnerCell(h', w) ==> up[w] < |h| && IsSectionCell(h, up[w])
    ensures BuilderCells(h')
  {
    forall i | 0 <= i < |h'| ensures BuilderCell(h', i) {
      if i < |h| && i != w {
        assert BuilderCell(h, i) && h'[i] == h[i];
        forall a | 0 <= a < Count(h[i])
          ensures InnerCell(h, Kid(h[i], a)) && !IsSectionCell(h, i) ==> InnerCell(h', Kid(h[i], a))
          ensures h[Kid(h[i], a)].TableCell? ==>
                  h'[Kid(h[i], a)].TableCell? && h'[Kid(h[i], a)].flag == h[Kid(h[i], a)].flag
        {
          assert up[Kid(h[i], a)] == i;
        }
      }
    }
  }

  /** What may be attached to the current container as a new cell. */
  ghost predicate MayAttach(h: Heap, f: BFrame, c: Cell)
    requires f.node < |h|
  {
    && Count(c) == 0
    && match c
       case ValueCell(v) => v.Leaf?
       case ArrayCell(aot, _) => !aot
       case TableCell(flag, _) => flag == OpenFlag(h, f)
  }

  /** The flag of a table opened in the current container. */
  function OpenFlag(h: Heap, f: BFrame): Flag
    requires f.node < |h|
  {
    if f.isArray then if f.nature.InlineItems? then Inline else Explicit
    else if h[f.node].TableCell? && h[f.node].flag.Inline? then Inline
    else Explicit
  }

  /** Why the current container refuses an element. */
  function Refusal(h: Heap, f: BFrame, key: Maybe<Key>, isTable: bool): Maybe<Fault>
    requires f.node < |h|
  {
    if f.isArray then if !isTable && f.nature.SectionItems? then Just(BadArgument) else Nothing
    else if key.Nothing? then Just(BadArgument)
    else if h[f.node].TableCell? && LinkOf(h[f.node].links, key.value) < |h[f.node].links| then Just(BadArgument)
    else Nothing
  }

  /** The nature of the current array once an element is attached. */
  function NextNature(f: BFrame, isTable: bool): Nature {
    if f.isArray && f.nature.Undecided? then if isTable then SectionItems else InlineItems else f.nature
  }

  /** The open containers once an element is attached to the innermost. */
  function Moved(stack: seq<BFrame>, isTable: bool): seq<BFrame>
    requires stack != []
  {
    var n := |stack| - 1;
    stack[n := stack[n].(nature := NextNature(stack[n], isTable))]
  }

  /** The nature an array starts with: inline if asked for, and always inside an
      inline array or an inline table. */
  function ArrayNature(h: Heap, f: BFrame, pinned: bool): Nature
    requires f.node < |h|
  {
    var inlineTerritory :=
      if f.isArray then NextNature(f, false).InlineItems? else h[f.node].TableCell? && h[f.node].flag.Inline?;
    if pinned || inlineTerritory then InlineItems else Undecided
  }

  /** The current container with a reference to one more cell. */
  function Attached(h: Heap, f: BFrame, key: Maybe<Key>, isTable: bool): (c: Cell)
    requires f.node < |h| && Refusal(h, f, key, isTable).Nothing?
    requires if f.isArray then h[f.node].ArrayCell? else h[f.node].TableCell?
    ensures AddsKid(h, f.node, c)
  {
    match h[f.node]
    case ArrayCell(aot, items) => ArrayCell(aot || NextNature(f, isTable).SectionItems?, items + [|h|])
    case TableCell(flag, links) => TableCell(flag, links + [Arena.Link(key.value, |h|)])
  }

  /** The current container's tree once an element is attached. */
  lemma {:induction false} AttachedTree(h: Heap, up: seq<nat>, stack: seq<BFrame>, key: Maybe<Key>, c: Cell)
    requires Sound(h, up, stack) && MayAttach(h, Top(stack), c) && Refusal(h, Top(stack), key, c.TableCell?).Nothing?
    ensures var f := Top(stack);
            var h' := h[f.node := Attached(h, f, key, c.TableCell?)] + [c];
            && ChangesOnly(h, up, h', up + [f.node], f.node)
            && ToTree(h', f.node) == Grow(ToTree(h, f.node), 0, key, Bare(c))
  {
    var f := Top(stack);
    if f.isArray {
      AddItem(h, up, f.node, Attached(h, f, key, c.TableCell?).aot, c);
    } else {
      AddEntry(h, up, f.node, key.value, c);
    }
  }

  lemma {:induction false} DistinctLinksAppend(links: seq<Link>, k: Key, n: nat)
    requires DistinctLinks(links) && LinkOf(links, k) == |links|
    ensures DistinctLinks(links + [Arena.Link(k, n)])
  {
  }

  /** The changed cell and the new one hold what they may hold. */
  lemma {:induction false} AttachedCell(h: Heap, up: seq<nat>, stack: seq<BFrame>, key: Maybe<Key>, c: Cell)
    requires Sound(h, up, stack) && MayAttach(h, Top(stack), c) && Refusal(h, Top(stack), key, c.TableCell?).Nothing?
    ensures var f := Top(stack);
            var h' := h[f.node := Attached(h, f, key, c.TableCell?)] + [c];
            && Shaped(h', up + [f.node]) && BuilderCell(h', f.node) && BuilderCell(h', |h|)
  {
    var f := Top(stack);
    var h' := h[f.node := Attached(h, f, key, c.TableCell?)] + [c];
    assert BuilderCell(h, f.node);
    AttachedTree(h, up, stack, key, c);
    forall a | 0 <= a < Count(h[f.node])
      ensures Kid(h'[f.node], a) == Kid(h[f.node], a) && h'[Kid(h[f.node], a)] == h[Kid(h[f.node], a)]
    {
      assert Kid(h[f.node], a) > f.node;
    }
    assert Kid(h'[f.node], Count(h[f.node])) == |h|;
    if h[f.node].TableCell? {
      DistinctLinksAppend(h[f.node].links, key.value, |h|);
    }
  }

  /** The new cell is the last kid of the current container, which is still the
      container it was. */
  ghost predicate HasAttached(h: Heap, stack: seq<BFrame>, h': Heap, stack': seq<BFrame>, c: Cell)
    requires stack != [] && Top(stack).node < |h|
  {
    var f := Top(stack);
    && |h'| == |h| + 1 && h'[|h|] == c && LastKid(h', f.node, |h|)
    && stack' == stack[|stack| - 1 := f.(nature := NextNature(f, c.TableCell?))]
    && (h'[f.node].TableCell? ==> h[f.node].TableCell? && h'[f.node].flag == h[f.node].flag)
  }

  /** Attaching an element keeps everything sound. */
  lemma {:induction false} AttachSound(h: Heap, up: seq<nat>, stack: seq<BFrame>, key: Maybe<Key>, c: Cell)
    requires Sound(h, up, stack) && MayAttach(h, Top(stack), c) && Refusal(h, Top(stack), key, c.TableCell?).Nothing?
    ensures var f := Top(stack);
            var h' := h[f.node := Attached(h, f, key, c.TableCell?)] + [c];
            var stack' := stack[|stack| - 1 := f.(nature := NextNature(f, c.TableCell?))];
            && Sound(h', up + [f.node], stack')
            && HasAttached(h, stack, h', stack', c)
            && ToTree(h', 0) == Grow(ToTree(h, 0), |stack| - 1, key, Bare(c))
  {
    hide ToTree, Grow, Above;
    var f := Top(stack);
    var n := |stack| - 1;
    var h' := h[f.node := Attached(h, f, key, c.TableCell?)] + [c];
    var stack' := stack[n := f.(nature := NextNature(f, c.TableCell?))];
    AttachedTree(h, up, stack, key, c);
    GrowChain(h, up, h', up + [f.node], stack, 0, key, Bare(c));
    assert FrameOk(h, stack, n);
    AttachedCell(h, up, stack, key, c);
    if n > 0 {
      assert LastKid(h, stack[n - 1].node, f.node);
      assert up[f.node] == stack[n - 1].node;
    }
    CellsStay(h, up, h', up + [f.node], f.node);
    forall i | 0 <= i < n ensures stack[i].node < f.node && h'[stack[i].node] == h[stack[i].node] {
      GrowChain(h, up, h', up + [f.node], stack, i, key, Bare(c));
      ChainBelow(h, up, stack, i);
    }
    StackStays(h, up, stack, h', stack');
  }

  /** Frames whose cells did not change stay as they are. */
  lemma {:induction false} StackStays(h: Heap, up: seq<nat>, stack: seq<BFrame>, h': Heap, stack': seq<BFrame>)
    requires Sound(h, up, stack) && |stack'| == |stack|
    requires forall i :: 0 <= i < |stack| - 1 ==> stack'[i] == stack[i]
    requires Top(stack').node == Top(stack).node && FrameOk(h', stack', |stack| - 1)
    requires forall i :: 0 <= i < |stack| - 1 ==> stack[i].node < |h| <= |h'| && h'[stack[i].node] == h[stack[i].node]
    ensures Chain(h', stack') && (forall i :: 0 <= i < |stack'| ==> FrameOk(h', stack', i))
  {
    forall i | 0 <= i < |stack'| ensures FrameOk(h', stack', i) {
      assert FrameOk(h, stack, i);
    }
    forall i | 0 <= i < |stack'| - 1 ensures LastKid(h', stack'[i].node, stack'[i + 1].node) {
      assert LastKid(h, stack[i].node, stack[i + 1].node);
    }
  }

  /** Frames further down stand for earlier cells. */
  lemma {:induction false} ChainBelow(h: Heap, up: seq<nat>, stack: seq<BFrame>, i: nat)
    requires Sound(h, up, stack) && i < |stack| - 1
    ensures stack[i].node < Top(stack).node
    decreases |stack| - i
  {
    assert LastKid(h, stack[i].node, stack[i + 1].node);
    assert FrameOk(h, stack, i);
    assert stack[i].node < stack[i + 1].node;
    if i + 1 < |stack| - 1 {
      ChainBelow(h, up, stack, i + 1);
    }
  }

  /** A container that has just been attached can be opened. */
  lemma {:induction false} PushSound(h: Heap, up: seq<nat>, stack: seq<BFrame>, f: BFrame)
    requires Sound(h, up, stack) && LastKid(h, Top(stack).node, f.node) && FrameOk(h, stack + [f], |stack|)
    ensures Sound(h, up, stack + [f])
  {
    var s := stack + [f];
    forall i | 0 <= i < |s| ensures FrameOk(h, s, i) {
      if i < |stack| {
        assert FrameOk(h, stack, i);
      }
    }
    forall i | 0 <= i < |s| - 1 ensures LastKid(h, s[i].node, s[i + 1].node) {
      if i < |stack| - 1 {
        assert LastKid(h, stack[i].node, stack[i + 1].node);
      }
    }
  }

  lemma {:induction false} PopSound(h: Heap, up: seq<nat>, stack: seq<BFrame>)
    requires Sound(h, up, stack) && |stack| > 1
    ensures Sound(h, up, stack[..|stack| - 1])
  {
    var s := stack[..|stack| - 1];
    forall i | 0 <= i < |s| ensures FrameOk(h, s, i) {
      assert FrameOk(h, stack, i);
    }
    forall i | 0 <= i < |s| - 1 ensures LastKid(h, s[i].node, s[i + 1].node) {
      assert LastKid(h, stack[i].node, stack[i + 1].node);
    }
  }

  class Builder {
    var heap: seq<Cell>
    ghost var up: seq<nat>
    var stack: seq<BFrame>
    var finished: bool

    ghost predicate Valid()
      reads this
    {
      Sound(heap, up, stack) && |stack| <= BUILDER_MAX_DEPTH
    }

    /** The document so far. */
    ghost function Doc(): Tree
      reads this
      requires Valid()
    {
      ToTree(heap, 0)
    }

    constructor ()
      ensures Valid() && Doc() == EmptyTable && |stack| == 1 && !finished
    {
      heap := [TableCell(Explicit, [])];
      up := [0];
      stack := [BFrame(0, false, Undecided)];
      finished := false;
    }

    /** Attaches cell `c` to the current container. */
    method Attach(key: Maybe<Key>, c: Cell) returns (fault: Maybe<Fault>)
      requires Valid() && MayAttach(heap, Top(stack), c)
      modifies this`heap, this`up, this`stack
      ensures Valid() && |stack| == |old(stack)|
      ensures fault == Refusal(old(heap), Top(old(stack)), key, c.TableCell?)
      ensures fault.Just? ==> heap == old(heap) && stack == old(stack)
      ensures fault.Nothing? ==>
                && Doc() == Grow(old(Doc()), |stack| - 1, key, Bare(c))
                && HasAttached(old(heap), old(stack), heap, stack, c)
    {
      var d := |stack| - 1;
      var f := stack[d];
      assert FrameOk(heap, stack, d);
      if f.isArray {
        if c.TableCell? {
          if f.nature.Undecided? {
            f := f.(nature := SectionItems);
          }
        } else if f.nature.SectionItems? {
          return Just(BadArgument);
        } else if f.nature.Undecided? {
          f := f.(nature := InlineItems);
        }
      } else {
        if key.Nothing? {
          return Just(BadArgument);
        }
        if LinkOf(heap[f.node].links, key.value) < |heap[f.node].links| {
          return Just(BadArgument);
        }
      }
      AttachSound(heap, up, stack, key, c);
      hide Sound;
      var cell :=
        if f.isArray then ArrayCell(f.nature.SectionItems?, heap[f.node].items + [|heap|])
        else TableCell(heap[f.node].flag, heap[f.node].links + [Arena.Link(key.value, |heap|)]);
      assert cell == Attached(heap, stack[d], key, c.TableCell?);
      heap := heap[f.node := cell] + [c];
      up := up + [f.node];
      stack := stack[d := f];
      fault := Nothing;
    }

    method PutScalar(key: Maybe<Key>, s: Scalar) returns (fault: Maybe<Fault>)
      requires Valid()
      modifies this`heap, this`up, this`stack
      ensures Valid() && |stack| == |old(stack)|
      ensures fault == if finished then Just(BadState) else Refusal(old(heap), Top(old(stack)), key, false)
      ensures Doc() == if fault.Just? then old(Doc()) else Grow(old(Doc()), |stack| - 1, key, Leaf(s))
      ensures stack == if fault.Just? then old(stack) else Moved(old(stack), false)
    {
      if finished {
        return Just(BadState);
      }
      fault := Attach(key, ValueCell(Leaf(s)));
    }

    /** Opens a table: a section, unless it is in inline territory. */
    method OpenTable(key: Maybe<Key>) returns (fault: Maybe<Fault>)
      requires Valid()
      modifies this`heap, this`up, this`stack
      ensures Valid()
      ensures var f := Top(old(stack));
              var refusal := Refusal(old(heap), f, key, true);
              && fault == (if finished then Just(BadState) else if refusal.Just? then refusal
                           else if |old(stack)| == BUILDER_MAX_DEPTH then Just(TooDeep) else Nothing)
              && stack == (if finished || refusal.Just? then old(stack) else Moved(old(stack), true))
                          + (if fault.Nothing? then [BFrame(|old(heap)|, false, Undecided)] else [])
              && Doc() == (if finished || refusal.Just? then old(Doc())
                           else Grow(old(Doc()), |old(stack)| - 1, key, Table(OpenFlag(old(heap), f), [])))
    {
      hide Refusal, Grow;
      if finished {
        return Just(BadState);
      }
      var f := stack[|stack| - 1];
      var flag := OpenFlag(heap, f);
      var n := |heap|;
      fault := Attach(key, TableCell(flag, []));
      if fault.Nothing? {
        if |stack| >= BUILDER_MAX_DEPTH {
          return Just(TooDeep);
        }
        PushSound(heap, up, stack, BFrame(n, false, Undecided));
        stack := stack + [BFrame(n, false, Undecided)];
      }
    }

    /** Opens an array; `pinned` asks for an inline one, and in inline territory
        there is no other. */
    method OpenArray(key: Maybe<Key>, pinned: bool) returns (fault: Maybe<Fault>)
      requires Valid()
      modifies this`heap, this`up, this`stack
      ensures Valid()
      ensures var f := Top(old(stack));
              var refusal := Refusal(old(heap), f, key, false);
              && fault == (if finished then Just(BadState) else if refusal.Just? then refusal
                           else if |old(stack)| == BUILDER_MAX_DEPTH then Just(TooDeep) else Nothing)
              && stack == (if finished || refusal.Just? then old(stack) else Moved(old(stack), false))
                          + (if fault.Nothing? then
                               [BFrame(|old(heap)|, true, ArrayNature(old(heap), f, pinned))]
                             else [])
              && Doc() == (if finished || refusal.Just? then old(Doc())
                           else Grow(old(Doc()), |old(stack)| - 1, key, Array(false, [])))
    {
      if finished {
        return Just(BadState);
      }
      var n := |heap|;
      fault := Attach(key, ArrayCell(false, []));
      if fault.Nothing? {
        if |stack| >= BUILDER_MAX_DEPTH {
          return Just(TooDeep);
        }
        var parent := stack[|stack| - 1];
        assert FrameOk(heap, stack, |stack| - 1) && BuilderCell(heap, parent.node);
        var inlineTerritory :=
          (parent.isArray && parent.nature.InlineItems?) || (!parent.isArray && heap[parent.node].flag.Inline?);
        var nature := if pinned || inlineTerritory then InlineItems else Undecided;
        PushSound(heap, up, stack, BFrame(n, true, nature));
        stack := stack + [BFrame(n, true, nature)];
      }
    }

    method CloseContainer() returns (fault: Maybe<Fault>)
      requires Valid()
      modifies this`stack
      ensures Valid() && Doc() == old(Doc())
      ensures fault == if finished || |old(stack)| == 1 then Just(BadState) else Nothing
      ensures stack == if fault.Nothing? then old(stack)[..|old(stack)| - 1] else old(stack)
    {
      if finished || |stack| == 1 {
        return Just(BadState);
      }
      PopSound(heap, up, stack);
      stack := stack[..|stack| - 1];
      fault := Nothing;
    }

    /** Hands over the document: it is well-formed, so what the emitter writes
        for it runs back to it. */
    method Finish() returns (fault: Maybe<Fault>)
      requires Valid()
      modifies this`finished
      ensures Valid() && Doc() == old(Doc())
      ensures fault == if old(finished) || |stack| > 1 then Just(BadState) else Nothing
      ensures finished == (old(finished) || fault.Nothing?)
      ensures IsSectionTable(Doc()) && WellFormed(Doc()) && AllProper(Emit(Doc()))
      ensures Run(InitialState, Emit(Doc())).Ok? && Run(InitialState, Emit(Doc())).value.root == Normal(Doc())
      ensures SameContent(Doc(), Run(InitialState, Emit(Doc())).value.root)
    {
      BuilderTree(heap, 0);
      EmitThenRun(ToTree(heap, 0));
      if finished || |stack| != 1 {
        return Just(BadState);
      }
      finished := true;
      fault := Nothing;
    }
  }
}
