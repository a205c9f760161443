/** The stream of operations that builds a given document, and the proof that
    feeding it to the writer gives that document back. */
module Streams {
  import opened Document
  import opened Places
  import opened Statements
  import opened RoundTrip
  import opened Tokens
  import opened Description
  import opened WriterText
  import opened Writer

  // ---------------------------------------------------------------- streams

  /** A value: a scalar, something empty, or a container with its contents. */
  function ValueOps(v: Tree): seq<Op>
    decreases v
  {
    match v
    case Leaf(s) => [ScalarOp(s)]
    case Array(_, items) => if items == [] then [EmptyArrayOp] else [BeginArray] + ItemsOps(items) + [Close]
    case Table(_, es) => if es == [] then [EmptyTableOp] else [BeginInlineTable] + BodyOps(es) + [Close]
  }

  function ItemsOps(items: seq<Tree>): seq<Op>
    decreases items
  {
    if items == [] then [] else ValueOps(items[0]) + ItemsOps(items[1..])
  }

  /** Key and value of each entry; a section is opened instead of written. */
  function BodyOps(es: seq<Entry>): seq<Op>
    decreases es
  {
    if es == [] then []
    else EntryOps(es[0]) + BodyOps(es[1..])
  }

  function EntryOps(e: Entry): seq<Op>
    decreases e
  {
    [KeyOp(e.key)] + if IsSection(e.value) then SectionOps(e.value) else ValueOps(e.value)
  }

  function SectionOps(v: Tree): seq<Op>
    decreases v
  {
    match v
    case Leaf(_) => []
    case Table(_, es) => [BeginTable] + BodyOps(es) + [Close]
    case Array(_, items) => [BeginAot] + ElementsOps(items) + [Close]
  }

  function ElementsOps(items: seq<Tree>): seq<Op>
    decreases items
  {
    if items == [] then []
    else [BeginTable] + (if items[0].Table? then BodyOps(items[0].entries) else []) + [Close] + ElementsOps(items[1..])
  }

  function OpsOf(root: Tree): seq<Op> {
    BodyOps(EntriesOf(root))
  }

  /** With `h` frames open, no section of `es` needs a path of more than 600. */
  predicate FramesFit(es: seq<Entry>, h: nat)
    decreases es
  {
    es == [] || ((IsSection(es[0].value) ==> SectionFrames(es[0].value, h)) && FramesFit(es[1..], h))
  }

  predicate SectionFrames(v: Tree, h: nat)
    decreases v
  {
    match v
    case Leaf(_) => true
    case Table(_, es) => h <= MAX_PATH_FRAMES && FramesFit(es, h + 1)
    case Array(_, items) => ElementFrames(items, h + 1)
  }

  predicate ElementFrames(items: seq<Tree>, h: nat)
    decreases items
  {
    items == [] ||
    (h <= MAX_PATH_FRAMES && (items[0].Table? ==> FramesFit(items[0].entries, h + 1)) && ElementFrames(items[1..], h))
  }

  // ------------------------------------------------------------------- laws

  lemma {:induction false} DescribeJoin(d: Desc, a: seq<Op>, b: seq<Op>)
    requires Nested(d.open) && Describe(d, a).Next?
    ensures Describe(d, a + b) == Describe(Describe(d, a).desc, b)
    decreases |a|
  {
    if a == [] {
      assert a + b == b;
    } else {
      assert (a + b)[0] == a[0] && (a + b)[1..] == a[1..] + b;
      DescribeJoin(OpStep(d, a[0]).desc, a[1..], b);
    }
  }

  lemma {:induction false} NothingMore(d: Desc)
    requires Nested(d.open)
    ensures Describe(d, []) == Next(d)
  {
  }

  lemma {:induction false} DescribeOne(d: Desc, op: Op)
    requires Nested(d.open) && OpStep(d, op).Next?
    ensures Describe(d, [op]) == OpStep(d, op)
  {
    assert Describe(OpStep(d, op).desc, []) == OpStep(d, op);
  }

  /** An operation, a stream behind it, and a last operation. */
  lemma {:induction false} Enclosed(d: Desc, first: Op, mid: seq<Op>, last: Op, d1: Desc, d2: Desc)
    requires Nested(d.open) && OpStep(d, first) == Next(d1) && Describe(d1, mid) == Next(d2)
    requires OpStep(d2, last).Next?
    ensures Describe(d, [first] + mid + [last]) == OpStep(d2, last)
  {
    hide OpStep;
    DescribeOne(d, first);
    DescribeJoin(d, [first], mid);
    DescribeJoin(d, [first] + mid, [last]);
    DescribeOne(d2, last);
  }

  /** The container with these entries. */
  function WithEntries(o: Open, es: seq<Entry>): (r: Open)
    requires HasKeys(o)
    ensures HasKeys(r) && IsTable(r) == IsTable(o) && r.entries == es
    ensures Nested(o) ==> Nested(r)
    ensures Height(r) == Height(o)
  {
    match o
    case Root(_) => Root(es)
    case Sub(b, k, _) => Sub(b, k, es)
    case Elem(b, _) => Elem(b, es)
    case Itab(b, name, _) => Itab(b, name, es)
  }

  lemma {:induction false} AddIsWith(o: Open, e: Entry)
    requires HasKeys(o)
    ensures AddEntry(o, e) == WithEntries(o, o.entries + [e])
  {
  }

  // ----------------------------------------------------------------- values

  /** A value as it stands in a normal form. */
  ghost predicate Plain(v: Tree) {
    IsInner(v) && Inlined(v) == v
  }

  lemma {:induction false} PlainParts(v: Tree)
    requires Plain(v)
    ensures v.Array? ==> !v.aot && forall i :: 0 <= i < |v.items| ==> Plain(v.items[i])
    ensures v.Table? ==> v.flag.Inline? && DistinctKeys(v.entries)
                         && forall i :: 0 <= i < |v.entries| ==> Plain(v.entries[i].value)
  {
    if v.Array? {
      InlinedItemsAt(v.items);
    } else if v.Table? {
      InlinedEntriesAt(v.entries);
    }
  }

  /** The stream of a value, where a value may stand, adds the value. */
  lemma {:induction false} ValueDescribed(d: Desc, v: Tree)
    requires Nested(d.open) && Place(d).At? && Plain(v)
    ensures Describe(d, ValueOps(v)) == AddAt(d, v)
    decreases v, 1
  {
    PlainParts(v);
    match v
    case Leaf(s) => DescribeOne(d, ScalarOp(s));
    case Array(_, items) =>
      if items == [] {
        DescribeOne(d, EmptyArrayOp);
      } else {
        ArrayDescribed(d, items);
      }
    case Table(_, es) =>
      if es == [] {
        DescribeOne(d, EmptyTableOp);
      } else {
        InlineTableDescribed(d, es);
      }
  }

  lemma {:induction false} ArrayDescribed(d: Desc, items: seq<Tree>)
    requires Nested(d.open) && Place(d).At? && forall i :: 0 <= i < |items| ==> Plain(items[i])
    ensures Describe(d, [BeginArray] + ItemsOps(items) + [Close]) == AddAt(d, Array(false, items))
    decreases items, 0
  {
    hide ItemsOps, Describe, Plain;
    var o, name := d.open, Place(d).name;
    ItemsDescribed(o, name, [], items);
    assert [] + items == items;
    Enclosed(d, BeginArray, ItemsOps(items), Close,
             Desc(Arr(o, name, []), Nothing), Desc(Arr(o, name, items), Nothing));
  }

  lemma {:induction false} InlineTableDescribed(d: Desc, es: seq<Entry>)
    requires Nested(d.open) && Place(d).At? && DistinctKeys(es) && forall i :: 0 <= i < |es| ==> Plain(es[i].value)
    ensures Describe(d, [BeginInlineTable] + BodyOps(es) + [Close]) == AddAt(d, Table(Inline, es))
    decreases es, 0
  {
    hide BodyOps, Describe, Plain, DistinctKeys;
    var o, name := d.open, Place(d).name;
    MembersDescribed(Itab(o, name, []), es);
    assert [] + es == es;
    Enclosed(d, BeginInlineTable, BodyOps(es), Close,
             Desc(Itab(o, name, []), Nothing), Desc(Itab(o, name, es), Nothing));
  }

  lemma {:induction false} ItemsDescribed(b: Open, name: Maybe<Key>, done: seq<Tree>, items: seq<Tree>)
    requires Nested(Arr(b, name, done)) && forall i :: 0 <= i < |items| ==> Plain(items[i])
    ensures Nested(Arr(b, name, done + items))
    ensures Describe(Desc(Arr(b, name, done), Nothing), ItemsOps(items))
         == Next(Desc(Arr(b, name, done + items), Nothing))
    decreases items, -1
  {
    if items == [] {
      assert done + items == done;
    } else {
      var d := Desc(Arr(b, name, done), Nothing);
      ValueDescribed(d, items[0]);
      ItemsDescribed(b, name, done + [items[0]], items[1..]);
      DescribeJoin(d, ValueOps(items[0]), ItemsOps(items[1..]));
      assert done + [items[0]] + items[1..] == done + items;
    }
  }

  /** A key, and the value behind it. */
  lemma {:induction false} KeyedDescribed(o: Open, k: Key, v: Tree)
    requires Nested(o) && HasKeys(o) && IndexOf(o.entries, k) == |o.entries| && Plain(v)
    requires IsTable(o) ==> !HasSection(o.entries)
    ensures Describe(Desc(o, Nothing), [KeyOp(k)] + ValueOps(v))
         == Next(Desc(WithEntries(o, o.entries + [Entry(k, v)]), Nothing))
    decreases v, 2
  {
    var d := Desc(o, Nothing);
    DescribeOne(d, KeyOp(k));
    ValueDescribed(Desc(o, Just(k)), v);
    DescribeJoin(d, [KeyOp(k)], ValueOps(v));
    AddIsWith(o, Entry(k, v));
  }

  lemma {:induction false} MembersDescribed(o: Open, es: seq<Entry>)
    requires o.Itab? && Nested(o) && DistinctKeys(es) && NoneIn(es, o.entries)
    requires forall i :: 0 <= i < |es| ==> Plain(es[i].value)
    ensures Describe(Desc(o, Nothing), BodyOps(es)) == Next(Desc(WithEntries(o, o.entries + es), Nothing))
    decreases es, -1
  {
    if es == [] {
      assert o.entries + es == o.entries;
    } else {
      assert es[0] in es && Plain(es[0].value);
      PlainIsNoSection(es[0].value);
      KeyedDescribed(o, es[0].key, es[0].value);
      var o' := WithEntries(o, o.entries + [es[0]]);
      NoneInNext(es, o.entries);
      MembersDescribed(o', es[1..]);
      DescribeJoin(Desc(o, Nothing), EntryOps(es[0]), BodyOps(es[1..]));
      assert o.entries + [es[0]] + es[1..] == o.entries + es;
    }
  }

  lemma {:induction false} PlainIsNoSection(v: Tree)
    requires Plain(v)
    ensures !IsSection(v)
  {
    InlinedIsNoSection(v);
  }

  lemma {:induction false} NoneInNext(es: seq<Entry>, done: seq<Entry>)
    requires es != [] && DistinctKeys(es) && NoneIn(es, done)
    ensures DistinctKeys(es[1..]) && NoneIn(es[1..], done + [es[0]])
  {
    forall e | e in es[1..] ensures IndexOf(done + [es[0]], e.key) == |done + [es[0]]| {
      assert e in es;
      IndexOfAppend(done, es[0], e.key);
    }
  }

  // --------------------------------------------------------------- sections

  lemma {:induction false} GoodFirst(es: seq<Entry>)
    requires GoodEntries(es) && es != []
    ensures GoodEntries(es[1..])
    ensures IsSection(es[0].value) ==> ValuesOf(es) == [] && Normal(es[0].value) == es[0].value
    ensures !IsSection(es[0].value) ==> Plain(es[0].value) && ValuesOf(es) == [es[0]] + ValuesOf(es[1..])
    ensures IsSection(es[0].value) ==> ValuesOf(es[1..]) == []
  {
    assert es[0] in es;
    if IsSection(es[0].value) {
      NoValueBefore(es);
      assert SectionsOf(es) == es;
      assert es[1..] == SectionsOf(es[1..]);
      assert ValuesOf(es[1..]) + SectionsOf(es[1..]) == SectionsOf(es[1..]);
    } else {
      assert (ValuesOf(es) + SectionsOf(es))[0] == ValuesOf(es)[0];
      assert es[1..] == ValuesOf(es[1..]) + SectionsOf(es[1..]);
    }
  }

  lemma {:induction false} NoValueBefore(es: seq<Entry>)
    requires es != [] && ValuesOf(es) + SectionsOf(es) == es
    ensures ValuesOf(es) != [] ==> !IsSection(es[0].value)
  {
    NoSectionAmongValues(es);
    assert ValuesOf(es) != [] ==> (ValuesOf(es) + SectionsOf(es))[0] in ValuesOf(es);
  }

  lemma {:induction false} NoSectionAmongValues(es: seq<Entry>)
    ensures forall e | e in ValuesOf(es) :: !IsSection(e.value)
  {
    if es != [] {
      NoSectionAmongValues(es[1..]);
      InlinedIsNoSection(es[0].value);
    }
  }

  /** What a section is when it is in normal form. */
  lemma {:induction false} NormalParts(v: Tree)
    requires IsSection(v) && WellFormed(v) && Normal(v) == v
    ensures v.Table? ==> v.flag.Explicit? && GoodEntries(v.entries)
    ensures v.Array? ==> v.aot && v.items != []
    ensures v.Array? ==> forall i :: 0 <= i < |v.items| ==>
                           v.items[i].Table? && v.items[i].flag.Explicit? && GoodEntries(v.items[i].entries)
  {
    if v.Array? {
      NormalItemsAt(v.items);
      forall i | 0 <= i < |v.items|
        ensures v.items[i].Table? && v.items[i].flag.Explicit? && GoodEntries(v.items[i].entries)
      {
        assert v.items[i] in v.items;
      }
    }
  }

  /** The stream of some entries, in a table that has none of their keys, adds
      them. */
  lemma {:induction false} BodyDescribed(o: Open, es: seq<Entry>)
    requires Nested(o) && IsTable(o) && GoodEntries(es) && NoneIn(es, o.entries) && FramesFit(es, Height(o))
    requires HasSection(o.entries) ==> ValuesOf(es) == []
    ensures Describe(Desc(o, Nothing), BodyOps(es)) == Next(Desc(WithEntries(o, o.entries + es), Nothing))
    decreases es, 1
  {
    hide GoodEntries, ValuesOf, EntryOps, Describe, HasSection, NoneIn, Nested, FramesFit, BodyOps;
    if es == [] {
      NothingDescribed(o);
    } else {
      EntryDescribed(o, es);
      BodyNext(o, es);
      BodyFirst(o, es);
      var o' := WithEntries(o, o.entries + [es[0]]);
      BodyDescribed(o', es[1..]);
      DescribeJoin(Desc(o, Nothing), EntryOps(es[0]), BodyOps(es[1..]));
    }
  }

  lemma {:induction false} NothingDescribed(o: Open)
    requires Nested(o) && IsTable(o)
    ensures Describe(Desc(o, Nothing), BodyOps([])) == Next(Desc(WithEntries(o, o.entries + []), Nothing))
  {
    assert o.entries + [] == o.entries;
  }

  /** What the first entry leaves for the others. */
  lemma {:induction false} BodyNext(o: Open, es: seq<Entry>)
    requires es != []
    requires Nested(o) && IsTable(o) && GoodEntries(es) && NoneIn(es, o.entries) && FramesFit(es, Height(o))
    requires HasSection(o.entries) ==> ValuesOf(es) == []
    ensures var o' := WithEntries(o, o.entries + [es[0]]);
            && Nested(o') && GoodEntries(es[1..]) && NoneIn(es[1..], o'.entries) && FramesFit(es[1..], Height(o'))
            && (HasSection(o'.entries) ==> ValuesOf(es[1..]) == [])
  {
    GoodFirst(es);
    NoneInNext(es, o.entries);
    SectionLast(o.entries, es[0]);
  }

  lemma {:induction false} BodyFirst(o: Open, es: seq<Entry>)
    requires es != [] && IsTable(o)
    ensures BodyOps(es) == EntryOps(es[0]) + BodyOps(es[1..])
    ensures WithEntries(WithEntries(o, o.entries + [es[0]]), o.entries + [es[0]] + es[1..])
         == WithEntries(o, o.entries + es)
  {
    assert o.entries + [es[0]] + es[1..] == o.entries + es;
  }

  lemma {:induction false} SectionLast(es: seq<Entry>, e: Entry)
    ensures HasSection(es + [e]) ==> HasSection(es) || IsSection(e.value)
  {
  }

  lemma {:induction false} EntryDescribed(o: Open, es: seq<Entry>)
    requires es != []
    requires Nested(o) && IsTable(o) && GoodEntries(es) && NoneIn(es, o.entries) && FramesFit(es, Height(o))
    requires HasSection(o.entries) ==> ValuesOf(es) == []
    ensures Describe(Desc(o, Nothing), EntryOps(es[0])) == Next(Desc(WithEntries(o, o.entries + [es[0]]), Nothing))
    decreases es, 0
  {
    var k, v := es[0].key, es[0].value;
    assert es[0] in es;
    GoodFirst(es);
    assert es[0] == Entry(k, v);
    if IsSection(v) {
      SectionDescribed(o, k, v);
    } else {
      KeyedDescribed(o, k, v);
    }
  }

  lemma {:induction false} SectionDescribed(o: Open, k: Key, v: Tree)
    requires Nested(o) && IsTable(o) && IndexOf(o.entries, k) == |o.entries|
    requires IsSection(v) && WellFormed(v) && Normal(v) == v && SectionFrames(v, Height(o))
    ensures Describe(Desc(o, Nothing), [KeyOp(k)] + SectionOps(v))
         == Next(Desc(WithEntries(o, o.entries + [Entry(k, v)]), Nothing))
    decreases v
  {
    NormalParts(v);
    var d, keyed := Desc(o, Nothing), Desc(o, Just(k));
    DescribeOne(d, KeyOp(k));
    DescribeJoin(d, [KeyOp(k)], SectionOps(v));
    AddIsWith(o, Entry(k, v));
    match v
    case Table(_, es) => TableDescribed(o, k, es);
    case Array(_, items) =>
      ElementsDescribed(o, k, [], items);
      assert [] + items == items;
      hide GoodEntries, FramesFit, BodyOps, Describe, ElementsOps;
      Enclosed(keyed, BeginAot, ElementsOps(items), Close,
               Desc(Aot(o, k, []), Nothing), Desc(Aot(o, k, items), Nothing));
  }

  lemma {:induction false} TableDescribed(o: Open, k: Key, es: seq<Entry>)
    requires Nested(o) && IsTable(o) && IndexOf(o.entries, k) == |o.entries| && Height(o) <= MAX_PATH_FRAMES
    requires GoodEntries(es) && FramesFit(es, Height(o) + 1)
    ensures Describe(Desc(o, Just(k)), [BeginTable] + BodyOps(es) + [Close])
         == Next(Desc(AddEntry(o, Entry(k, Table(Explicit, es))), Nothing))
    decreases es, 2
  {
    hide GoodEntries, FramesFit, BodyOps, Describe;
    BodyDescribed(Sub(o, k, []), es);
    assert [] + es == es;
    Enclosed(Desc(o, Just(k)), BeginTable, BodyOps(es), Close,
             Desc(Sub(o, k, []), Nothing), Desc(Sub(o, k, es), Nothing));
  }

  lemma {:induction false} ElementsDescribed(b: Open, k: Key, done: seq<Tree>, items: seq<Tree>)
    requires Nested(Aot(b, k, done)) && ElementFrames(items, Height(b) + 1)
    requires forall i :: 0 <= i < |items| ==>
               items[i].Table? && items[i].flag.Explicit? && GoodEntries(items[i].entries)
    ensures Nested(Aot(b, k, done + items))
    ensures Describe(Desc(Aot(b, k, done), Nothing), ElementsOps(items))
         == Next(Desc(Aot(b, k, done + items), Nothing))
    decreases items
  {
    hide GoodEntries, FramesFit, Describe, BodyOps;
    var d := Desc(Aot(b, k, done), Nothing);
    if items == [] {
      assert done + items == done;
      NothingMore(d);
    } else {
      var x := items[0];
      ElementDescribed(b, k, done, x);
      ElementsDescribed(b, k, done + [x], items[1..]);
      DescribeJoin(d, [BeginTable] + BodyOps(x.entries) + [Close], ElementsOps(items[1..]));
      assert done + [x] + items[1..] == done + items;
    }
  }

  lemma {:induction false} ElementDescribed(b: Open, k: Key, done: seq<Tree>, x: Tree)
    requires Nested(Aot(b, k, done)) && Height(b) + 1 <= MAX_PATH_FRAMES
    requires x.Table? && x.flag.Explicit? && GoodEntries(x.entries) && FramesFit(x.entries, Height(b) + 2)
    ensures Nested(Aot(b, k, done + [x]))
    ensures Describe(Desc(Aot(b, k, done), Nothing), [BeginTable] + BodyOps(x.entries) + [Close])
         == Next(Desc(Aot(b, k, done + [x]), Nothing))
    decreases x
  {
    hide GoodEntries, FramesFit, BodyOps, Describe;
    var o := Aot(b, k, done);
    BodyDescribed(Elem(o, []), x.entries);
    assert [] + x.entries == x.entries;
    assert Closed(Elem(o, x.entries)) == Aot(b, k, done + [x]);
    Enclosed(Desc(o, Nothing), BeginTable, BodyOps(x.entries), Close, Desc(Elem(o, []), Nothing),
             Desc(Elem(o, x.entries), Nothing));
  }

  /** The stream of a document in normal form describes that document. */
  lemma {:induction false} StreamDescribes(root: Tree)
    requires IsSectionTable(root) && WellFormed(root) && Normal(root) == root && FramesFit(root.entries, 1)
    ensures Describe(Desc(Root([]), Nothing), OpsOf(root)) == Next(Desc(Root(root.entries), Nothing))
    ensures Completed(Root(root.entries)) == root
  {
    BodyDescribed(Root([]), root.entries);
    assert [] + root.entries == root.entries;
  }

  /** Feeding a document to a fresh writer gives its text, which reads back as the
      document. */
  method WriteDocument(root: Tree, ghost max: nat) returns (text: seq<Tok>)
    requires IsSectionTable(root) && WellFormed(root) && Normal(root) == root && FramesFit(root.entries, 1)
    ensures text == Text(Emit(root))
    ensures Fits(root.entries, 0, max) ==> RunText(InitialState, text, 0, max) == Accepted(root)
  {
    hide FramesFit, Normal, WellFormed, Describe, Fits, OpsOf;
    var w := new Writer();
    StreamDescribes(root);
    var fed := w.Feed(OpsOf(root));
    var status;
    status, text := w.Finish(max);
  }
}
