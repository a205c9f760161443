/** The text that belongs to a description, and how each operation extends it.
    Nothing here depends on how the writer produces the text. */
module WriterText {
  import opened Sequences
  import opened Document
  import opened Statements
  import opened RoundTrip
  import opened Tokens
  import opened Description

  /** The header path of the innermost section. */
  function PathOf(o: Open): seq<Key> {
    match o
    case Root(_) => []
    case Sub(b, k, _) => PathOf(b) + [k]
    case Aot(b, k, _) => PathOf(b) + [k]
    case Elem(b, _) => PathOf(b)
    case Arr(b, _, _) => PathOf(b)
    case Itab(b, _, _) => PathOf(b)
  }

  /** What precedes a value in a container: a comma unless it is the first
      inline one, and its key. */
  function Lead(o: Open, name: Maybe<Key>): seq<Tok> {
    (if (o.Arr? && o.items != []) || (o.Itab? && o.entries != []) then [Comma] else [])
    + (if name.Just? then [KeyTok([name.value]), Equals] else [])
  }

  /** What follows a value in a container. */
  function Tail(o: Open): seq<Tok> {
    if IsTable(o) then [Newline] else []
  }

  /** The text of everything described so far. */
  function OpenText(o: Open): seq<Tok> {
    match o
    case Root(es) => Text(Body([], es))
    case Sub(b, k, es) => OpenText(b) + [HeaderTok(PathOf(o)), Newline] + Text(Body(PathOf(o), es))
    case Elem(b, es) => OpenText(b) + [AotTok(PathOf(o)), Newline] + Text(Body(PathOf(o), es))
    case Aot(b, _, items) => OpenText(b) + Text(Elements(PathOf(o), items))
    case Arr(b, name, items) => OpenText(b) + Lead(b, name) + [OpenBracket] + ItemsText(items)
    case Itab(b, name, es) => OpenText(b) + Lead(b, name) + [OpenBrace] + MembersText(es)
  }

  // ----------------------------------------------------- appending to lists

  lemma {:induction false} MoreItemsAppend(items: seq<Tree>, v: Tree)
    ensures MoreItemsText(items + [v]) == MoreItemsText(items) + ([Comma] + ValueText(v))
    decreases |items|
  {
    if items == [] {
      assert items + [v] == [v];
      assert MoreItemsText([v][1..]) == [];
    } else {
      Concat(items, [v]);
      MoreItemsAppend(items[1..], v);
      Assoc([Comma] + ValueText(items[0]), MoreItemsText(items[1..]), [Comma] + ValueText(v));
    }
  }

  lemma {:induction false} ItemsTextAppend(items: seq<Tree>, v: Tree)
    ensures ItemsText(items + [v]) == ItemsText(items) + ((if items == [] then [] else [Comma]) + ValueText(v))
  {
    if items == [] {
      assert items + [v] == [v];
      assert MoreItemsText([v][1..]) == [];
    } else {
      Concat(items, [v]);
      MoreItemsAppend(items[1..], v);
      Assoc(ValueText(items[0]), MoreItemsText(items[1..]), [Comma] + ValueText(v));
    }
  }

  lemma {:induction false} MoreMembersAppend(es: seq<Entry>, e: Entry)
    ensures MoreMembersText(es + [e]) == MoreMembersText(es) + ([Comma] + MemberText(e))
    decreases |es|
  {
    if es == [] {
      assert es + [e] == [e];
      assert MoreMembersText([e][1..]) == [];
    } else {
      Concat(es, [e]);
      MoreMembersAppend(es[1..], e);
      Assoc([Comma] + MemberText(es[0]), MoreMembersText(es[1..]), [Comma] + MemberText(e));
    }
  }

  lemma {:induction false} MembersTextAppend(es: seq<Entry>, e: Entry)
    ensures MembersText(es + [e]) == MembersText(es) + ((if es == [] then [] else [Comma]) + MemberText(e))
  {
    if es == [] {
      assert es + [e] == [e];
      assert MoreMembersText([e][1..]) == [];
    } else {
      Concat(es, [e]);
      MoreMembersAppend(es[1..], e);
      Assoc(MemberText(es[0]), MoreMembersText(es[1..]), [Comma] + MemberText(e));
    }
  }

  lemma {:induction false} ElementsAppend(path: seq<Key>, items: seq<Tree>, t: Tree)
    ensures Elements(path, items + [t]) == Elements(path, items) + Element(path, t)
    decreases |items|
  {
    if items == [] {
      assert items + [t] == [t];
      assert Elements(path, [t][1..]) == [];
    } else {
      Concat(items, [t]);
      ElementsAppend(path, items[1..], t);
    }
  }

  lemma {:induction false} NoSections(path: seq<Key>, es: seq<Entry>)
    requires !HasSection(es)
    ensures Sections(path, es) == [] && SectionsOf(es) == []
    decreases |es|
  {
    if es != [] {
      assert es[0] in es;
      NoSections(path, es[1..]);
    }
  }

  lemma {:induction false} OneSection(path: seq<Key>, e: Entry)
    ensures Sections(path, [e]) == if IsSection(e.value) then Section(path + [e.key], e.value) else []
    ensures KeyVals([e]) == if IsSection(e.value) then [] else [KeyVal([e.key], Inlined(e.value))]
  {
    assert Sections(path, [e][1..]) == [];
    assert KeyVals([e][1..]) == [];
  }

  /** A value appended to a table that has no section yet is one more line. */
  lemma {:induction false} BodyAddValue(path: seq<Key>, es: seq<Entry>, e: Entry)
    requires !HasSection(es) && !IsSection(e.value)
    ensures Text(Body(path, es + [e])) == Text(Body(path, es)) + LineText(KeyVal([e.key], Inlined(e.value)))
  {
    NoSections(path, es);
    KeyValsConcat(es, [e]);
    SectionsConcat(path, es, [e]);
    OneSection(path, e);
    var line := KeyVal([e.key], Inlined(e.value));
    assert Body(path, es + [e]) == Body(path, es) + [line];
    TextConcat(Body(path, es), [line]);
    TextOne(line);
  }

  /** A section appended to a table is its lines appended. */
  lemma {:induction false} BodyAddSection(path: seq<Key>, es: seq<Entry>, e: Entry)
    requires IsSection(e.value)
    ensures Text(Body(path, es + [e])) == Text(Body(path, es)) + Text(Section(path + [e.key], e.value))
  {
    KeyValsConcat(es, [e]);
    SectionsConcat(path, es, [e]);
    OneSection(path, e);
    var lines := Section(path + [e.key], e.value);
    hide Section, Sections, KeyVals, Text;
    Assoc(KeyVals(es), Sections(path, es), lines);
    assert KeyVals(es + [e]) == KeyVals(es);
    assert Body(path, es + [e]) == Body(path, es) + lines;
    TextConcat(Body(path, es), lines);
  }

  // ------------------------------------------------------ text of operations

  /** What is written before the entries of a table. */
  function TableStart(o: Open): seq<Tok>
    requires IsTable(o)
  {
    match o
    case Root(_) => []
    case Sub(b, _, _) => OpenText(b) + [HeaderTok(PathOf(o)), Newline]
    case Elem(b, _) => OpenText(b) + [AotTok(PathOf(o)), Newline]
  }

  lemma {:induction false} TableText(o: Open)
    requires IsTable(o)
    ensures OpenText(o) == TableStart(o) + Text(Body(PathOf(o), o.entries))
  {
  }

  lemma {:induction false} TableStartAdd(o: Open, e: Entry)
    requires IsTable(o)
    ensures TableStart(AddEntry(o, e)) == TableStart(o) && PathOf(AddEntry(o, e)) == PathOf(o)
  {
  }

  lemma {:induction false} AddItemText(o: Open, v: Tree)
    requires o.Arr?
    ensures OpenText(AddValue(o, Nothing, v)) == OpenText(o) + (Lead(o, Nothing) + ValueText(v))
  {
    ItemsTextAppend(o.items, v);
    var start := OpenText(o.below) + Lead(o.below, o.name) + [OpenBracket];
    Assoc(start, ItemsText(o.items), Lead(o, Nothing) + ValueText(v));
  }

  lemma {:induction false} AddMemberText(o: Open, k: Key, v: Tree)
    requires o.Itab?
    ensures OpenText(AddValue(o, Just(k), v)) == OpenText(o) + (Lead(o, Just(k)) + ValueText(v))
  {
    var e := Entry(k, v);
    MembersTextAppend(o.entries, e);
    var comma := if o.entries == [] then [] else [Comma];
    Assoc(comma, [KeyTok([k]), Equals], ValueText(v));
    var start := OpenText(o.below) + Lead(o.below, o.name) + [OpenBrace];
    Assoc(start, MembersText(o.entries), Lead(o, Just(k)) + ValueText(v));
  }

  lemma {:induction false} AddLineText(o: Open, k: Key, v: Tree)
    requires IsTable(o) && !IsSection(v) && !HasSection(o.entries)
    ensures OpenText(AddValue(o, Just(k), v)) == OpenText(o) + (Lead(o, Just(k)) + ValueText(v) + [Newline])
  {
    var e := Entry(k, v);
    TableText(o);
    TableText(AddEntry(o, e));
    TableStartAdd(o, e);
    BodyAddValue(PathOf(o), o.entries, e);
    InlinedText(v);
    assert Lead(o, Just(k)) == [KeyTok([k]), Equals];
    Assoc(TableStart(o), Text(Body(PathOf(o), o.entries)), LineText(KeyVal([k], Inlined(v))));
  }

  /** The text of a value in its place. */
  lemma {:induction false} AddValueText(o: Open, name: Maybe<Key>, v: Tree)
    requires if o.Arr? then name.Nothing? else HasKeys(o) && name.Just?
    requires !IsSection(v) && (IsTable(o) ==> !HasSection(o.entries))
    ensures OpenText(AddValue(o, name, v)) == OpenText(o) + (Lead(o, name) + ValueText(v) + Tail(o))
  {
    if o.Arr? {
      AddItemText(o, v);
    } else if o.Itab? {
      AddMemberText(o, name.value, v);
    } else {
      AddLineText(o, name.value, v);
    }
  }

  /** A section that is complete reads as it did while it was open. */
  lemma {:induction false} AddSectionText(o: Open, k: Key, v: Tree)
    requires IsTable(o) && IsSection(v)
    ensures OpenText(AddEntry(o, Entry(k, v))) == OpenText(o) + Text(Section(PathOf(o) + [k], v))
  {
    var e := Entry(k, v);
    TableText(o);
    TableText(AddEntry(o, e));
    TableStartAdd(o, e);
    BodyAddSection(PathOf(o), o.entries, e);
    Assoc(TableStart(o), Text(Body(PathOf(o), o.entries)), Text(Section(PathOf(o) + [k], v)));
  }

  /** What closing a container writes. */
  function Closing(o: Open): seq<Tok>
    requires Fitting(o)
  {
    match o
    case Arr(b, _, _) => [CloseBracket] + Tail(b)
    case Itab(b, _, _) => [CloseBrace] + Tail(b)
    case _ => []
  }

  /** No value goes into a table after its first section. */
  ghost predicate ValuesFirst(o: Open)
    requires Fitting(o)
  {
    (o.Arr? || o.Itab?) && IsTable(o.below) ==> !HasSection(o.below.entries)
  }

  lemma {:induction false} CloseText(o: Open)
    requires Nested(o) && !o.Root? && ValuesFirst(o)
    ensures OpenText(Closed(o)) == OpenText(o) + Closing(o)
  {
    match o
    case Sub(b, k, es) =>
      CloseSub(b, k, es);
    case Aot(b, k, items) =>
      AddSectionText(b, k, Completed(o));
    case Elem(b, es) =>
      CloseElem(b, es);
    case Arr(b, name, items) =>
      AddValueText(b, name, Completed(o));
      CloseAssoc(OpenText(b), Lead(b, name), [OpenBracket], ItemsText(items), [CloseBracket], Tail(b));
    case Itab(b, name, es) =>
      AddValueText(b, name, Completed(o));
      CloseAssoc(OpenText(b), Lead(b, name), [OpenBrace], MembersText(es), [CloseBrace], Tail(b));
  }

  lemma {:induction false} CloseSub(b: Open, k: Key, es: seq<Entry>)
    requires IsTable(b)
    ensures OpenText(AddEntry(b, Entry(k, Table(Explicit, es)))) == OpenText(Sub(b, k, es))
  {
    var path := PathOf(Sub(b, k, es));
    AddSectionText(b, k, Table(Explicit, es));
    TextConcat([Header(path)], Body(path, es));
    TextOne(Header(path));
    hide Text, Body;
    Assoc(OpenText(b), [HeaderTok(path), Newline], Text(Body(path, es)));
  }

  lemma {:induction false} CloseElem(b: Open, es: seq<Entry>)
    requires b.Aot?
    ensures OpenText(Aot(b.below, b.key, b.items + [Table(Explicit, es)])) == OpenText(Elem(b, es))
  {
    var path, t := PathOf(b), Table(Explicit, es);
    ElementsAppend(path, b.items, t);
    TextConcat(Elements(path, b.items), Element(path, t));
    TextConcat([AotHeader(path)], Body(path, es));
    TextOne(AotHeader(path));
    hide Text, Body, Elements;
    Assoc(OpenText(b.below), Text(Elements(path, b.items)), Text(Element(path, t)));
    Assoc(OpenText(b), [AotTok(path), Newline], Text(Body(path, es)));
  }

  lemma {:induction false} CloseAssoc<T>(a: seq<T>, b: seq<T>, c: seq<T>, d: seq<T>, e: seq<T>, f: seq<T>)
    ensures a + (b + (c + d + e) + f) == a + b + c + d + (e + f)
  {
  }

  // -------------------------------------------------------------- soundness

  /** A table's entries as the writer's operations leave them. */
  ghost predicate GoodEntries(es: seq<Entry>) {
    DistinctKeys(es) && AllWellFormed(es) && ValuesOf(es) + SectionsOf(es) == es
  }

  ghost predicate Good(o: Open)
    requires Nested(o)
  {
    assert !o.Root? ==> Nested(o.below);
    match o
    case Root(es) => GoodEntries(es)
    case Sub(b, k, es) => GoodEntries(es) && IndexOf(b.entries, k) == |b.entries| && Good(b)
    case Elem(b, es) => GoodEntries(es) && Good(b)
    case Aot(b, k, items) =>
      AllSectionTables(items) && NormalItems(items) == items && IndexOf(b.entries, k) == |b.entries| && Good(b)
    case Arr(b, name, items) =>
      AllInner(items) && InlinedItems(items) == items && Waiting(b, name) && ValuesFirst(o) && Good(b)
    case Itab(b, name, es) =>
      DistinctKeys(es) && AllInnerEntries(es) && InlinedEntries(es) == es && Waiting(b, name) && ValuesFirst(o)
        && Good(b)
  }

  /** The name an open value will get is still free. */
  ghost predicate Waiting(b: Open, name: Maybe<Key>)
    requires name.Just? ==> HasKeys(b)
  {
    name.Just? ==> IndexOf(b.entries, name.value) == |b.entries|
  }

  lemma {:induction false} DistinctAppend(es: seq<Entry>, e: Entry)
    requires DistinctKeys(es) && IndexOf(es, e.key) == |es|
    ensures DistinctKeys(es + [e])
  {
  }

  lemma {:induction false} ValuesOfConcat(a: seq<Entry>, b: seq<Entry>)
    ensures ValuesOf(a + b) == ValuesOf(a) + ValuesOf(b)
    ensures SectionsOf(a + b) == SectionsOf(a) + SectionsOf(b)
    decreases |a|
  {
    if a == [] {
      assert a + b == b;
    } else {
      hide Inlined, Normal, IsSection;
      Concat(a, b);
      ValuesOfConcat(a[1..], b);
      ValuesOfFirst(a, ValuesOf(b), SectionsOf(b));
    }
  }

  lemma {:induction false} ValuesOfFirst(a: seq<Entry>, vs: seq<Entry>, ss: seq<Entry>)
    requires a != []
    ensures ValuesOf(a) + vs ==
              (if IsSection(a[0].value) then [] else [Entry(a[0].key, Inlined(a[0].value))]) + (ValuesOf(a[1..]) + vs)
    ensures SectionsOf(a) + ss ==
              (if IsSection(a[0].value) then [Entry(a[0].key, Normal(a[0].value))] else []) + (SectionsOf(a[1..]) + ss)
  {
  }

  lemma {:induction false} OneEntry(e: Entry)
    ensures ValuesOf([e]) == if IsSection(e.value) then [] else [Entry(e.key, Inlined(e.value))]
    ensures SectionsOf([e]) == if IsSection(e.value) then [Entry(e.key, Normal(e.value))] else []
  {
    assert ValuesOf([e][1..]) == [] && SectionsOf([e][1..]) == [];
  }

  lemma {:induction false} GoodAppend(es: seq<Entry>, e: Entry)
    requires GoodEntries(es) && WellFormed(e.value) && IndexOf(es, e.key) == |es|
    requires if IsSection(e.value) then Normal(e.value) == e.value else Inlined(e.value) == e.value && !HasSection(es)
    ensures GoodEntries(es + [e])
  {
    DistinctAppend(es, e);
    hide DistinctKeys, WellFormed, Normal, Inlined;
    forall x | x in es + [e] ensures WellFormed(x.value) { assert x in es || x == e; }
    ValuesOfConcat(es, [e]);
    OneEntry(e);
    hide ValuesOf, SectionsOf;
    if !IsSection(e.value) {
      NoSections([], es);
    }
  }

  lemma {:induction false} InlinedAppend(items: seq<Tree>, v: Tree)
    ensures InlinedItems(items + [v]) == InlinedItems(items) + [Inlined(v)]
    decreases |items|
  {
    if items == [] {
      assert items + [v] == [v];
      assert InlinedItems([v][1..]) == [];
    } else {
      Concat(items, [v]);
      InlinedAppend(items[1..], v);
    }
  }

  lemma {:induction false} InlinedEntriesAppend(es: seq<Entry>, e: Entry)
    ensures InlinedEntries(es + [e]) == InlinedEntries(es) + [Entry(e.key, Inlined(e.value))]
    decreases |es|
  {
    if es == [] {
      assert es + [e] == [e];
      assert InlinedEntries([e][1..]) == [];
    } else {
      Concat(es, [e]);
      InlinedEntriesAppend(es[1..], e);
    }
  }

  lemma {:induction false} NormalAppend(items: seq<Tree>, t: Tree)
    ensures NormalItems(items + [t]) == NormalItems(items) + [Normal(t)]
    decreases |items|
  {
    if items == [] {
      assert items + [t] == [t];
      assert NormalItems([t][1..]) == [];
    } else {
      Concat(items, [t]);
      NormalAppend(items[1..], t);
    }
  }

  /** What a container completes to is in normal form. */
  lemma {:induction false} CompletedGood(o: Open)
    requires Nested(o) && Good(o)
    ensures IsTable(o) ==>
              IsSectionTable(Completed(o)) && WellFormed(Completed(o)) && Normal(Completed(o)) == Completed(o)
    ensures o.Aot? && o.items != [] ==> WellFormed(Completed(o)) && Normal(Completed(o)) == Completed(o)
    ensures o.Arr? || o.Itab? ==> IsValue(Completed(o)) && Inlined(Completed(o)) == Completed(o)
  {
  }

  lemma {:induction false} AddValueGood(o: Open, name: Maybe<Key>, v: Tree)
    requires Nested(o) && Good(o) && (if o.Arr? then name.Nothing? else HasKeys(o) && name.Just?)
    requires IsValue(v) && Inlined(v) == v && Waiting(o, name) && (IsTable(o) ==> !HasSection(o.entries))
    ensures Nested(AddValue(o, name, v)) && Good(AddValue(o, name, v))
  {
    ValueWellFormed(v);
    if !o.Root? {
      assert Nested(o.below);
    }
    if o.Arr? {
      InlinedAppend(o.items, v);
      forall x | x in o.items + [v] ensures IsInner(x) { assert x in o.items || x == v; }
    } else if o.Itab? {
      var e := Entry(name.value, v);
      InlinedEntriesAppend(o.entries, e);
      DistinctAppend(o.entries, e);
      forall x | x in o.entries + [e] ensures IsInner(x.value) { assert x in o.entries || x == e; }
    } else {
      InlinedIsNoSection(v);
      GoodAppend(o.entries, Entry(name.value, v));
    }
  }

  lemma {:induction false} AddSectionGood(o: Open, k: Key, v: Tree)
    requires Nested(o) && Good(o) && IsTable(o) && IndexOf(o.entries, k) == |o.entries|
    requires IsSection(v) && WellFormed(v) && Normal(v) == v
    ensures Nested(AddEntry(o, Entry(k, v))) && Good(AddEntry(o, Entry(k, v)))
  {
    if !o.Root? {
      assert Nested(o.below);
    }
    GoodAppend(o.entries, Entry(k, v));
  }

  lemma {:induction false} ClosedGood(o: Open)
    requires Nested(o) && Good(o) && !o.Root? && (o.Aot? ==> o.items != [])
    ensures Good(Closed(o))
  {
    assert Nested(o.below);
    CompletedGood(o);
    match o
    case Sub(b, k, _) => AddSectionGood(b, k, Completed(o));
    case Aot(b, k, _) => AddSectionGood(b, k, Completed(o));
    case Elem(b, _) =>
      assert Nested(b.below);
      NormalAppend(b.items, Completed(o));
      forall x | x in b.items + [Completed(o)] ensures IsSectionTable(x) && WellFormed(x) {
        assert x in b.items || x == Completed(o);
      }
    case Arr(b, name, _) => AddValueGood(b, name, Completed(o));
    case Itab(b, name, _) => AddValueGood(b, name, Completed(o));
  }

  /** Every operation that describes something keeps the description sound. */
  lemma {:induction false} StepGood(d: Desc, op: Op)
    requires Nested(d.open) && Good(d.open) && OpStep(d, op).Next?
    ensures Good(OpStep(d, op).desc.open)
  {
    var o := d.open;
    match op
    case ScalarOp(s) => AddValueGood(o, Place(d).name, Leaf(s));
    case EmptyTableOp => AddValueGood(o, Place(d).name, Table(Inline, []));
    case EmptyArrayOp => AddValueGood(o, Place(d).name, Array(false, []));
    case Close => ClosedGood(o);
    case _ =>
  }

  /** A finished description is a well-formed document in normal form, and its
      text is what the emitter writes for that document. */
  lemma {:induction false} Finished(o: Open)
    requires o.Root? && Good(o)
    ensures IsSectionTable(Completed(o)) && WellFormed(Completed(o)) && Normal(Completed(o)) == Completed(o)
    ensures OpenText(o) == Text(Emit(Completed(o)))
  {
  }

  // ------------------------------------------------------------ opening

  lemma {:induction false} OpenedText(o: Open, k: Key, name: Maybe<Key>)
    ensures OpenText(Sub(o, k, [])) == OpenText(o) + [HeaderTok(PathOf(o) + [k]), Newline]
    ensures OpenText(Elem(o, [])) == OpenText(o) + [AotTok(PathOf(o)), Newline]
    ensures OpenText(Aot(o, k, [])) == OpenText(o)
    ensures OpenText(Arr(o, name, [])) == OpenText(o) + Lead(o, name) + [OpenBracket]
    ensures OpenText(Itab(o, name, [])) == OpenText(o) + Lead(o, name) + [OpenBrace]
  {
  }
}
