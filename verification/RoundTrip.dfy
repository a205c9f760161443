/** The statements the emitter writes for a tree, and the proof that running
    them rebuilds the tree. */
module RoundTrip {
  import opened Sequences
  import opened Document
  import opened Places
  import opened Statements
  import opened Content

  /** A tree that gets its own header lines. */
  predicate IsSection(v: Tree) {
    match v
    case Leaf(_) => false
    case Table(flag, _) => !flag.Inline?
    case Array(aot, _) => aot
  }

  // --------------------------------------------------------------- emission

  /** A value as its inline text denotes it: every table in it is inline. */
  function Inlined(v: Tree): Tree {
    match v
    case Leaf(_) => v
    case Array(_, items) => Array(false, InlinedItems(items))
    case Table(_, es) => Table(Inline, InlinedEntries(es))
  }

  lemma InlinedIsNoSection(v: Tree)
    ensures !IsSection(Inlined(v))
  {
  }

  lemma NormalIsSection(v: Tree)
    ensures IsSection(v) ==> IsSection(Normal(v))
  {
  }

  function InlinedItems(items: seq<Tree>): (r: seq<Tree>)
    ensures |r| == |items|
  {
    if items == [] then [] else [Inlined(items[0])] + InlinedItems(items[1..])
  }

  function InlinedEntries(es: seq<Entry>): (r: seq<Entry>)
    ensures |r| == |es|
  {
    if es == [] then [] else [Entry(es[0].key, Inlined(es[0].value))] + InlinedEntries(es[1..])
  }

  function EntriesOf(t: Tree): seq<Entry> {
    if t.Table? then t.entries else []
  }

  /** The `key = value` lines of a table. */
  function KeyVals(es: seq<Entry>): seq<Stmt> {
    if es == [] then []
    else if IsSection(es[0].value) then KeyVals(es[1..])
    else [KeyVal([es[0].key], Inlined(es[0].value))] + KeyVals(es[1..])
  }

  /** The header lines of a table's sections, each with what follows it. */
  function Sections(path: seq<Key>, es: seq<Entry>): seq<Stmt>
    decreases es, 0
  {
    if es == [] then []
    else if IsSection(es[0].value) then Section(path + [es[0].key], es[0].value) + Sections(path, es[1..])
    else Sections(path, es[1..])
  }

  function Section(path: seq<Key>, v: Tree): seq<Stmt>
    decreases v
  {
    match v
    case Leaf(_) => []
    case Table(_, es) => [Header(path)] + Body(path, es)
    case Array(_, items) => Elements(path, items)
  }

  function Elements(path: seq<Key>, items: seq<Tree>): seq<Stmt>
    decreases items
  {
    if items == [] then []
    else Element(path, items[0]) + Elements(path, items[1..])
  }

  function Element(path: seq<Key>, item: Tree): seq<Stmt>
    decreases item
  {
    [AotHeader(path)] + if item.Table? then Body(path, item.entries) else []
  }

  function Body(path: seq<Key>, es: seq<Entry>): seq<Stmt>
    decreases es, 1
  {
    KeyVals(es) + Sections(path, es)
  }

  /** The lines the emitter writes for a document. */
  function Emit(root: Tree): seq<Stmt> {
    Body([], EntriesOf(root))
  }

  // ---------------------------------------------------------- normal form

  function ValuesOf(es: seq<Entry>): seq<Entry> {
    if es == [] then []
    else if IsSection(es[0].value) then ValuesOf(es[1..])
    else [Entry(es[0].key, Inlined(es[0].value))] + ValuesOf(es[1..])
  }

  function SectionsOf(es: seq<Entry>): seq<Entry> {
    if es == [] then []
    else if IsSection(es[0].value) then [Entry(es[0].key, Normal(es[0].value))] + SectionsOf(es[1..])
    else SectionsOf(es[1..])
  }

  /** The tree with each section table's entries stably split into values, then
      sections; values inlined; every section table explicit. */
  function Normal(v: Tree): Tree {
    match v
    case Leaf(_) => v
    case Table(_, es) => Table(Explicit, ValuesOf(es) + SectionsOf(es))
    case Array(_, items) => Array(true, NormalItems(items))
  }

  function NormalItems(items: seq<Tree>): (r: seq<Tree>)
    ensures |r| == |items|
  {
    if items == [] then [] else [Normal(items[0])] + NormalItems(items[1..])
  }

  // ------------------------------------------------------------ properness

  lemma {:induction false} InlinedIsValue(v: Tree)
    requires IsInner(v)
    ensures IsValue(Inlined(v))
    decreases v
  {
    match v
    case Leaf(_) =>
    case Array(_, items) =>
      InlinedItemsAt(items);
      forall x | x in InlinedItems(items) ensures IsInner(x) {
        var i :| 0 <= i < |items| && InlinedItems(items)[i] == x;
        InlinedIsValue(items[i]);
      }
    case Table(_, es) =>
      InlinedEntriesAt(es);
      forall e | e in InlinedEntries(es) ensures IsInner(e.value) {
        var i :| 0 <= i < |es| && InlinedEntries(es)[i] == e;
        assert es[i] in es;
        InlinedIsValue(es[i].value);
      }
  }

  lemma {:induction false} InlinedItemsAt(items: seq<Tree>)
    ensures forall i :: 0 <= i < |items| ==> InlinedItems(items)[i] == Inlined(items[i])
  {
    if items != [] {
      InlinedItemsAt(items[1..]);
      forall i | 0 < i < |items| ensures InlinedItems(items)[i] == Inlined(items[i]) {
        assert InlinedItems(items)[i] == InlinedItems(items[1..])[i - 1];
      }
    }
  }

  lemma {:induction false} InlinedEntriesAt(es: seq<Entry>)
    ensures forall i :: 0 <= i < |es| ==> InlinedEntries(es)[i] == Entry(es[i].key, Inlined(es[i].value))
  {
    if es != [] {
      InlinedEntriesAt(es[1..]);
      forall i | 0 < i < |es| ensures InlinedEntries(es)[i] == Entry(es[i].key, Inlined(es[i].value)) {
        assert InlinedEntries(es)[i] == InlinedEntries(es[1..])[i - 1];
      }
    }
  }

  /** Every entry is well-formed. */
  ghost predicate AllWellFormed(es: seq<Entry>) {
    forall e | e in es :: WellFormed(e.value)
  }

  ghost predicate AllSectionTables(items: seq<Tree>) {
    forall x | x in items :: IsSectionTable(x) && WellFormed(x)
  }

  lemma {:induction false} KeyValsProper(es: seq<Entry>)
    requires AllWellFormed(es)
    ensures AllProper(KeyVals(es))
  {
    if es != [] {
      assert es[0] in es;
      KeyValsProper(es[1..]);
      if !IsSection(es[0].value) {
        InlinedIsValue(es[0].value);
      }
    }
  }

  lemma {:induction false} BodyProper(path: seq<Key>, es: seq<Entry>)
    requires AllWellFormed(es)
    ensures AllProper(Body(path, es))
    decreases es, 1
  {
    KeyValsProper(es);
    SectionsProper(path, es);
  }

  lemma {:induction false} SectionsProper(path: seq<Key>, es: seq<Entry>)
    requires AllWellFormed(es)
    ensures AllProper(Sections(path, es))
    decreases es, 0
  {
    if es != [] {
      assert es[0] in es;
      SectionsProper(path, es[1..]);
      if IsSection(es[0].value) {
        match es[0].value
        case Table(_, sub) => BodyProper(path + [es[0].key], sub);
        case Array(_, items) => ElementsProper(path + [es[0].key], items);
      }
    }
  }

  lemma {:induction false} ElementsProper(path: seq<Key>, items: seq<Tree>)
    requires AllSectionTables(items) && path != []
    ensures AllProper(Elements(path, items))
    decreases items
  {
    if items != [] {
      assert items[0] in items;
      BodyProper(path, items[0].entries);
      ElementsProper(path, items[1..]);
    }
  }

  // ------------------------------------------------------------ rebuilding

  ghost predicate NoneIn(es: seq<Entry>, done: seq<Entry>) {
    forall e | e in es :: IndexOf(done, e.key) == |done|
  }

  /** The table at `path` holds `es`. */
  ghost predicate Holds(st: State, path: seq<Key>, flag: Flag, es: seq<Entry>) {
    Ready(st) && !flag.Inline? && Leads(st.root, path) && Get(st.root, path) == Table(flag, es)
  }

  /** Running `stmts` gives the table at `path` the entries `es`, and changes
      nothing else. */
  ghost predicate Gives(st: State, stmts: seq<Stmt>, path: seq<Key>, flag: Flag, es: seq<Entry>) {
    && Ready(st) && !flag.Inline? && Leads(st.root, path) && AllProper(stmts)
    && Run(st, stmts).Ok?
    && Run(st, stmts).value.root == Put(st.root, path, Table(flag, es))
  }

  lemma {:induction false} GivesHolds(st: State, stmts: seq<Stmt>, path: seq<Key>, flag: Flag, es: seq<Entry>)
    requires Gives(st, stmts, path, flag, es)
    ensures Holds(Run(st, stmts).value, path, flag, es)
  {
    GetPut(st.root, path, Table(flag, es));
  }

  /** Two runs in a row on the same table. */
  lemma {:induction false} GivesThen(st: State, a: seq<Stmt>, b: seq<Stmt>, path: seq<Key>, flag: Flag,
                                     es: seq<Entry>, es': seq<Entry>)
    requires Gives(st, a, path, flag, es)
    requires Gives(Run(st, a).value, b, path, flag, es')
    ensures Gives(st, a + b, path, flag, es')
  {
    RunConcat(st, a, b);
    PutPut(st.root, path, Table(flag, es), Table(flag, es'));
  }

  /** A run on the last entry's table is a run on the table that holds it. */
  lemma {:induction false} GivesBelow(st: State, stmts: seq<Stmt>, path: seq<Key>, flag: Flag, done: seq<Entry>,
                                      k: Key, v: Tree, es: seq<Entry>)
    requires Holds(st, path, flag, done + [Entry(k, v)]) && IndexOf(done, k) == |done|
    requires Enter(v).Ok? && Enter(v).value.flag.Explicit?
    requires Leads(st.root, path + [k]) ==> Gives(st, stmts, path + [k], Explicit, es)
    ensures Gives(st, stmts, path, flag, done + [Entry(k, Leave(v, Table(Explicit, es)))])
  {
    var t := Table(flag, done + [Entry(k, v)]);
    var t' := Table(flag, done + [Entry(k, Leave(v, Table(Explicit, es)))]);
    IndexOfAppend(done, Entry(k, v), k);
    assert Leads(t, [k]) by { assert [k][1..] == []; }
    LeadsConcat(st.root, path, [k]);
    PutConcat(st.root, path, [k], Table(Explicit, es));
    assert Put(t, [k], Table(Explicit, es)) == t' by {
      assert [k][1..] == [];
      assert SetValue(t, |done|, Leave(v, Table(Explicit, es))).entries == t'.entries;
    }
  }

  lemma {:induction false} LeadsBelow(st: State, path: seq<Key>, flag: Flag, done: seq<Entry>, k: Key, v: Tree)
    requires Holds(st, path, flag, done + [Entry(k, v)]) && IndexOf(done, k) == |done|
    requires Enter(v).Ok?
    ensures Leads(st.root, path + [k]) && Get(st.root, path + [k]) == Enter(v).value
  {
    var t := Table(flag, done + [Entry(k, v)]);
    IndexOfAppend(done, Entry(k, v), k);
    assert [k][1..] == [];
    LeadsConcat(st.root, path, [k]);
  }

  /** The header of a new section opens an empty table at the end. */
  lemma {:induction false} OpenSection(st: State, path: seq<Key>, flag: Flag, done: seq<Entry>, k: Key)
    requires Holds(st, path, flag, done) && IndexOf(done, k) == |done|
    ensures Gives(st, [Header(path + [k])], path, flag, done + [Entry(k, EmptyTable)])
    ensures Run(st, [Header(path + [k])]).value.cur == path + [k]
  {
    RunOne(st, Header(path + [k]));
    DefineLift(st.root, path, [k], false);
  }

  /** The header of an element of an array of tables opens an empty table at
      the end of the array, which the first such header makes. */
  lemma {:induction false} OpenElement(st: State, path: seq<Key>, flag: Flag, done: seq<Entry>, k: Key,
                                       built: seq<Tree>)
    requires Holds(st, path, flag, if built == [] then done else done + [Entry(k, Array(true, built))])
    requires IndexOf(done, k) == |done|
    ensures Gives(st, [AotHeader(path + [k])], path, flag, done + [Entry(k, Array(true, built + [EmptyTable]))])
    ensures Run(st, [AotHeader(path + [k])]).value.cur == path + [k]
  {
    RunOne(st, AotHeader(path + [k]));
    DefineLift(st.root, path, [k], true);
    var es := if built == [] then done else done + [Entry(k, Array(true, built))];
    if built == [] {
      assert built + [EmptyTable] == [EmptyTable];
    } else {
      IndexOfAppend(done, Entry(k, Array(true, built)), k);
      var v := Array(true, built + [EmptyTable]);
      assert SetValue(Table(flag, es), |done|, v).entries == done + [Entry(k, v)];
    }
  }

  lemma {:induction false} RunKeyVal(st: State, e: Entry, flag: Flag, done: seq<Entry>)
    requires Holds(st, st.cur, flag, done) && Proper(KeyVal([e.key], e.value)) && IndexOf(done, e.key) == |done|
    ensures Gives(st, [KeyVal([e.key], e.value)], st.cur, flag, done + [e])
    ensures Run(st, [KeyVal([e.key], e.value)]).value.cur == st.cur
    ensures Holds(Run(st, [KeyVal([e.key], e.value)]).value, st.cur, flag, done + [e])
  {
    var line := KeyVal([e.key], e.value);
    RunOne(st, line);
    assert Gives(st, [line], st.cur, flag, done + [e]);
    GivesHolds(st, [line], st.cur, flag, done + [e]);
  }

  /** The line of the first value, and what is left for the others. */
  lemma {:induction false} FirstKeyVal(st: State, es: seq<Entry>, flag: Flag, done: seq<Entry>)
    requires Holds(st, st.cur, flag, done) && es != [] && !IsSection(es[0].value)
    requires AllWellFormed(es) && DistinctKeys(es) && NoneIn(es, done)
    ensures var e := Entry(es[0].key, Inlined(es[0].value));
            var line := KeyVal([e.key], e.value);
            && Proper(line)
            && var next := Run(st, [line]);
            && Gives(st, [line], st.cur, flag, done + [e]) && next.Ok? && next.value.cur == st.cur
            && Holds(next.value, st.cur, flag, done + [e]) && NoneIn(es[1..], done + [e])
            && KeyVals(es) == [line] + KeyVals(es[1..])
  {
    hide Step, Inlined, IsSection;
    var e := Entry(es[0].key, Inlined(es[0].value));
    var line := KeyVal([e.key], e.value);
    KeyValsProper(es);
    assert es[0] in es;
    assert Proper(line) by { assert line in KeyVals(es); }
    RunKeyVal(st, e, flag, done);
    hide Holds, Gives, Run;
    forall x | x in es[1..] ensures IndexOf(done + [e], x.key) == |done + [e]| {
      IndexOfAppend(done, e, x.key);
    }
  }

  lemma {:induction false} RunKeyVals(st: State, es: seq<Entry>, flag: Flag, done: seq<Entry>)
    requires Holds(st, st.cur, flag, done)
    requires AllWellFormed(es) && DistinctKeys(es) && NoneIn(es, done)
    ensures Gives(st, KeyVals(es), st.cur, flag, done + ValuesOf(es))
    ensures Run(st, KeyVals(es)).value.cur == st.cur
    decreases |es|
  {
    hide Step, Inlined, IsSection;
    KeyValsProper(es);
    if es == [] {
      PutSame(st.root, st.cur);
      assert done + ValuesOf(es) == done;
    } else if IsSection(es[0].value) {
      RunKeyVals(st, es[1..], flag, done);
    } else {
      FirstKeyVal(st, es, flag, done);
      hide Holds, Gives, Run;
      var e := Entry(es[0].key, Inlined(es[0].value));
      var line := KeyVal([e.key], e.value);
      var next := Run(st, [line]).value;
      RunKeyVals(next, es[1..], flag, done + [e]);
      GivesThen(st, [line], KeyVals(es[1..]), st.cur, flag, done + [e], done + [e] + ValuesOf(es[1..]));
      RunConcat(st, [line], KeyVals(es[1..]));
      assert done + [e] + ValuesOf(es[1..]) == done + ValuesOf(es);
    }
  }

  lemma {:induction false} RunBody(st: State, es: seq<Entry>, flag: Flag)
    requires Holds(st, st.cur, flag, []) && AllWellFormed(es) && DistinctKeys(es)
    ensures Gives(st, Body(st.cur, es), st.cur, flag, ValuesOf(es) + SectionsOf(es))
    decreases es, 3
  {
    RunKeyVals(st, es, flag, []);
    assert [] + ValuesOf(es) == ValuesOf(es);
    GivesHolds(st, KeyVals(es), st.cur, flag, ValuesOf(es));
    var next := Run(st, KeyVals(es)).value;
    ValuesOfKeys(es);
    SectionKeysFree(es, ValuesOf(es));
    RunSections(next, st.cur, es, flag, ValuesOf(es));
    GivesThen(st, KeyVals(es), Sections(st.cur, es), st.cur, flag, ValuesOf(es), ValuesOf(es) + SectionsOf(es));
  }

  /** No section of `es` has a key in `done`. */
  ghost predicate NoSectionIn(es: seq<Entry>, done: seq<Entry>) {
    forall e | e in es && IsSection(e.value) :: IndexOf(done, e.key) == |done|
  }

  lemma {:induction false} ValuesOfKeys(es: seq<Entry>)
    ensures forall x | x in ValuesOf(es) :: exists e :: e in es && !IsSection(e.value) && e.key == x.key
  {
    if es != [] {
      ValuesOfKeys(es[1..]);
      forall x | x in ValuesOf(es) ensures exists e :: e in es && !IsSection(e.value) && e.key == x.key {
        if x in ValuesOf(es[1..]) {
          var e :| e in es[1..] && !IsSection(e.value) && e.key == x.key;
          assert e in es;
        } else {
          assert es[0] in es;
        }
      }
    }
  }

  lemma {:induction false} SectionKeysFree(es: seq<Entry>, done: seq<Entry>)
    requires DistinctKeys(es)
    requires forall x | x in done :: exists e :: e in es && !IsSection(e.value) && e.key == x.key
    ensures NoSectionIn(es, done)
  {
    forall e | e in es && IsSection(e.value) ensures IndexOf(done, e.key) == |done| {
      forall x | x in done ensures x.key != e.key {
        var e' :| e' in es && !IsSection(e'.value) && e'.key == x.key;
        DistinctMembers(es, e, e');
      }
      Absent(done, e.key);
    }
  }

  lemma {:induction false} DistinctMembers(es: seq<Entry>, a: Entry, b: Entry)
    requires DistinctKeys(es) && a in es && b in es && a != b
    ensures a.key != b.key
  {
    var i :| 0 <= i < |es| && es[i] == a;
    var j :| 0 <= j < |es| && es[j] == b;
    assert i < j || j < i;
  }

  lemma {:induction false} Absent(es: seq<Entry>, k: Key)
    requires forall x | x in es :: x.key != k
    ensures IndexOf(es, k) == |es|
  {
    forall j | 0 <= j < |es| ensures es[j].key != k { assert es[j] in es; }
    IndexOfIs(es, k, |es|);
  }

  /** One more entry, then the rest. */
  lemma {:induction false} GivesMore(st: State, a: seq<Stmt>, b: seq<Stmt>, path: seq<Key>, flag: Flag,
                                     done: seq<Entry>, e: Entry, more: seq<Entry>)
    requires Gives(st, a, path, flag, done + [e])
    requires Gives(Run(st, a).value, b, path, flag, done + [e] + more)
    ensures Gives(st, a + b, path, flag, done + ([e] + more))
  {
    GivesThen(st, a, b, path, flag, done + [e], done + [e] + more);
    assert done + [e] + more == done + ([e] + more);
  }

  lemma {:induction false} NoSectionNext(es: seq<Entry>, done: seq<Entry>, e: Entry)
    requires es != [] && es[0].key == e.key
    requires AllWellFormed(es) && DistinctKeys(es) && NoSectionIn(es, done)
    ensures AllWellFormed(es[1..]) && DistinctKeys(es[1..]) && NoSectionIn(es[1..], done + [e])
  {
    forall x | x in es[1..] && IsSection(x.value) ensures IndexOf(done + [e], x.key) == |done + [e]| {
      assert x in es;
      IndexOfAppend(done, e, x.key);
    }
  }

  lemma {:induction false} RunNothing(st: State, path: seq<Key>, flag: Flag, done: seq<Entry>)
    requires Holds(st, path, flag, done)
    ensures Gives(st, [], path, flag, done)
  {
    PutSame(st.root, path);
  }

  lemma {:induction false} RunSections(st: State, path: seq<Key>, es: seq<Entry>, flag: Flag, done: seq<Entry>)
    requires Holds(st, path, flag, done) && AllWellFormed(es) && DistinctKeys(es) && NoSectionIn(es, done)
    ensures Gives(st, Sections(path, es), path, flag, done + SectionsOf(es))
    decreases es, 2
  {
    if es == [] {
      RunNothing(st, path, flag, done);
      assert done + SectionsOf(es) == done;
    } else if !IsSection(es[0].value) {
      RunSections(st, path, es[1..], flag, done);
    } else {
      RunFirstSection(st, path, es, flag, done);
    }
  }

  lemma {:induction false} RunFirstSection(st: State, path: seq<Key>, es: seq<Entry>, flag: Flag, done: seq<Entry>)
    requires es != [] && IsSection(es[0].value)
    requires Holds(st, path, flag, done) && AllWellFormed(es) && DistinctKeys(es) && NoSectionIn(es, done)
    ensures Gives(st, Section(path + [es[0].key], es[0].value) + Sections(path, es[1..]), path, flag,
                  done + ([Entry(es[0].key, Normal(es[0].value))] + SectionsOf(es[1..])))
    decreases es, 1
  {
    var e := Entry(es[0].key, Normal(es[0].value));
    var lines := Section(path + [e.key], es[0].value);
    assert es[0] in es;
    RunSection(st, path, es[0], flag, done);
    GivesHolds(st, lines, path, flag, done + [e]);
    NoSectionNext(es, done, e);
    RunSections(Run(st, lines).value, path, es[1..], flag, done + [e]);
    GivesMore(st, lines, Sections(path, es[1..]), path, flag, done, e, SectionsOf(es[1..]));
  }

  lemma {:induction false} RunSection(st: State, path: seq<Key>, e: Entry, flag: Flag, done: seq<Entry>)
    requires Holds(st, path, flag, done) && WellFormed(e.value) && IsSection(e.value) && IndexOf(done, e.key) == |done|
    ensures Gives(st, Section(path + [e.key], e.value), path, flag, done + [Entry(e.key, Normal(e.value))])
    decreases e, 0
  {
    var k := e.key;
    match e.value
    case Table(_, sub) =>
      OpenSection(st, path, flag, done, k);
      var header := [Header(path + [k])];
      var next := Run(st, header).value;
      GivesHolds(st, header, path, flag, done + [Entry(k, EmptyTable)]);
      LeadsBelow(next, path, flag, done, k, EmptyTable);
      RunBody(next, sub, Explicit);
      GivesBelow(next, Body(path + [k], sub), path, flag, done, k, EmptyTable, ValuesOf(sub) + SectionsOf(sub));
      GivesThen(st, header, Body(path + [k], sub), path, flag, done + [Entry(k, EmptyTable)],
                done + [Entry(k, Normal(e.value))]);
    case Array(_, items) =>
      RunElements(st, path, k, items, flag, done, []);
      assert [] + NormalItems(items) == NormalItems(items);
  }

  /** The table that holds `k` while its array of tables is being built. */
  ghost function Building(done: seq<Entry>, k: Key, built: seq<Tree>): seq<Entry> {
    if built == [] then done else done + [Entry(k, Array(true, built))]
  }

  lemma {:induction false} RunElement(st: State, path: seq<Key>, k: Key, item: Tree, flag: Flag,
                                      done: seq<Entry>, built: seq<Tree>)
    requires Holds(st, path, flag, Building(done, k, built)) && IndexOf(done, k) == |done|
    requires IsSectionTable(item) && WellFormed(item)
    ensures Gives(st, Element(path + [k], item), path, flag, Building(done, k, built + [Normal(item)]))
    decreases item
  {
    var header := [AotHeader(path + [k])];
    var v := Array(true, built + [EmptyTable]);
    OpenElement(st, path, flag, done, k, built);
    var next := Run(st, header).value;
    GivesHolds(st, header, path, flag, done + [Entry(k, v)]);
    LeadsBelow(next, path, flag, done, k, v);
    RunBody(next, item.entries, Explicit);
    GivesBelow(next, Body(path + [k], item.entries), path, flag, done, k, v,
               ValuesOf(item.entries) + SectionsOf(item.entries));
    assert Leave(v, Normal(item)).items == built + [Normal(item)];
    GivesThen(st, header, Body(path + [k], item.entries), path, flag, done + [Entry(k, v)],
              Building(done, k, built + [Normal(item)]));
  }

  /** One more element, then the rest. */
  lemma {:induction false} BuildMore(st: State, a: seq<Stmt>, b: seq<Stmt>, path: seq<Key>, flag: Flag,
                                     done: seq<Entry>,
                                     k: Key, built: seq<Tree>, x: Tree, more: seq<Tree>)
    requires Gives(st, a, path, flag, Building(done, k, built + [x]))
    requires Gives(Run(st, a).value, b, path, flag, Building(done, k, built + [x] + more))
    ensures Gives(st, a + b, path, flag, Building(done, k, built + ([x] + more)))
  {
    assert built + [x] + more == built + ([x] + more);
    GivesThen(st, a, b, path, flag, Building(done, k, built + [x]), Building(done, k, built + [x] + more));
  }

  lemma {:induction false} RunElements(st: State, path: seq<Key>, k: Key, items: seq<Tree>, flag: Flag,
                                       done: seq<Entry>, built: seq<Tree>)
    requires Holds(st, path, flag, Building(done, k, built)) && IndexOf(done, k) == |done|
    requires AllSectionTables(items)
    ensures Gives(st, Elements(path + [k], items), path, flag, Building(done, k, built + NormalItems(items)))
    decreases items
  {
    if items == [] {
      RunNothing(st, path, flag, Building(done, k, built));
      assert built + NormalItems(items) == built;
    } else {
      assert items[0] in items;
      var x := Normal(items[0]);
      var lines := Element(path + [k], items[0]);
      RunElement(st, path, k, items[0], flag, done, built);
      GivesHolds(st, lines, path, flag, Building(done, k, built + [x]));
      RunElements(Run(st, lines).value, path, k, items[1..], flag, done, built + [x]);
      BuildMore(st, lines, Elements(path + [k], items[1..]), path, flag, done, k, built, x, NormalItems(items[1..]));
    }
  }

  // ---------------------------------------------------------------- content

  lemma {:induction false} InlinedKeeps(v: Tree)
    requires IsInner(v)
    ensures SameContent(v, Inlined(v))
    decreases v
  {
    match v
    case Leaf(_) =>
    case Array(_, items) =>
      InlinedItemsAt(items);
      forall i | 0 <= i < |items| ensures SameContent(items[i], InlinedItems(items)[i]) {
        InlinedKeeps(items[i]);
      }
    case Table(_, es) =>
      InlinedEntriesAt(es);
      forall k: Key ensures SameUnder(v, Inlined(v), k) {
        SameKeys(es, InlinedEntries(es), k);
        var i := IndexOf(es, k);
        if i < |es| {
          assert es[i] in es;
          InlinedKeeps(es[i].value);
        }
      }
  }

  /** An entry's value in the normal form of its table. */
  function NormalValue(v: Tree): Tree {
    if IsSection(v) then Normal(v) else Inlined(v)
  }

  /** What is found under a key in two lists of entries, one behind the other. */
  lemma {:induction false} FoundInConcat(a: seq<Entry>, b: seq<Entry>, k: Key)
    ensures IndexOf(a + b, k) == if IndexOf(a, k) < |a| then IndexOf(a, k) else |a| + IndexOf(b, k)
  {
    IndexOfIs(a + b, k, if IndexOf(a, k) < |a| then IndexOf(a, k) else |a| + IndexOf(b, k));
  }

  lemma {:induction false} FoundAmongValues(es: seq<Entry>, k: Key)
    requires DistinctKeys(es)
    ensures var i, j := IndexOf(es, k), IndexOf(ValuesOf(es), k);
            if i < |es| && !IsSection(es[i].value) then
              j < |ValuesOf(es)| && ValuesOf(es)[j].value == NormalValue(es[i].value)
            else j == |ValuesOf(es)|
  {
    if es != [] {
      FoundAmongValues(es[1..], k);
      if es[0].key == k {
        Absent(es[1..], k);
      }
    }
  }

  lemma {:induction false} FoundAmongSections(es: seq<Entry>, k: Key)
    requires DistinctKeys(es)
    ensures var i, j := IndexOf(es, k), IndexOf(SectionsOf(es), k);
            if i < |es| && IsSection(es[i].value) then
              j < |SectionsOf(es)| && SectionsOf(es)[j].value == NormalValue(es[i].value)
            else j == |SectionsOf(es)|
  {
    if es != [] {
      FoundAmongSections(es[1..], k);
      if es[0].key == k {
        Absent(es[1..], k);
      }
    }
  }

  lemma {:induction false} NormalItemsAt(items: seq<Tree>)
    ensures forall i :: 0 <= i < |items| ==> NormalItems(items)[i] == Normal(items[i])
  {
    if items != [] {
      NormalItemsAt(items[1..]);
      forall i | 0 < i < |items| ensures NormalItems(items)[i] == Normal(items[i]) {
        assert NormalItems(items)[i] == NormalItems(items[1..])[i - 1];
      }
    }
  }

  /** The normal form of a well-formed tree says what the tree says. */
  lemma {:induction false} NormalKeepsContent(v: Tree)
    requires WellFormed(v)
    ensures SameContent(v, NormalValue(v))
    decreases v
  {
    if !IsSection(v) {
      InlinedKeeps(v);
    } else if v.Array? {
      NormalItemsAt(v.items);
      forall i | 0 <= i < |v.items| ensures SameContent(v.items[i], NormalItems(v.items)[i]) {
        assert v.items[i] in v.items;
        NormalKeepsContent(v.items[i]);
      }
    } else {
      forall k: Key ensures SameUnder(v, Normal(v), k) {
        FoundAmongValues(v.entries, k);
        FoundAmongSections(v.entries, k);
        FoundInConcat(ValuesOf(v.entries), SectionsOf(v.entries), k);
        var i := IndexOf(v.entries, k);
        if i < |v.entries| {
          assert v.entries[i] in v.entries;
          NormalKeepsContent(v.entries[i].value);
        }
      }
    }
  }

  lemma {:induction false} IndexOfDistinct(es: seq<Entry>, a: nat)
    requires DistinctKeys(es) && a < |es|
    ensures IndexOf(es, es[a].key) == a
  {
    IndexOfIs(es, es[a].key, a);
  }

  lemma {:induction false} ValuesInOrder(es: seq<Entry>, a: nat, b: nat)
    requires DistinctKeys(es) && a < b < |es| && !IsSection(es[a].value) && !IsSection(es[b].value)
    ensures IndexOf(ValuesOf(es), es[a].key) < IndexOf(ValuesOf(es), es[b].key)
    decreases |es|
  {
    if a > 0 {
      ValuesInOrder(es[1..], a - 1, b - 1);
    }
  }

  lemma {:induction false} SectionsInOrder(es: seq<Entry>, a: nat, b: nat)
    requires DistinctKeys(es) && a < b < |es| && IsSection(es[a].value) && IsSection(es[b].value)
    ensures IndexOf(SectionsOf(es), es[a].key) < IndexOf(SectionsOf(es), es[b].key)
    decreases |es|
  {
    if a > 0 {
      SectionsInOrder(es[1..], a - 1, b - 1);
    }
  }

  /** In the normal form of a table every value comes before every section, and
      each kind stays in the order it had. */
  lemma {:induction false} NormalIsStable(t: Tree, a: nat, b: nat)
    requires IsSectionTable(t) && WellFormed(t) && a < |t.entries| && b < |t.entries|
    requires if IsSection(t.entries[a].value) == IsSection(t.entries[b].value) then a < b
             else IsSection(t.entries[b].value)
    ensures IndexOf(Normal(t).entries, t.entries[a].key) < IndexOf(Normal(t).entries, t.entries[b].key)
  {
    var es := t.entries;
    IndexOfDistinct(es, a);
    IndexOfDistinct(es, b);
    FoundAmongValues(es, es[a].key);
    FoundAmongValues(es, es[b].key);
    FoundInConcat(ValuesOf(es), SectionsOf(es), es[a].key);
    FoundInConcat(ValuesOf(es), SectionsOf(es), es[b].key);
    if IsSection(es[a].value) {
      SectionsInOrder(es, a, b);
    } else if !IsSection(es[b].value) {
      ValuesInOrder(es, a, b);
    }
  }

  /** Running what the emitter writes for a well-formed document rebuilds it in
      normal form, with nothing lost, added or moved to other keys. */
  lemma {:induction false} EmitThenRun(root: Tree)
    requires IsSectionTable(root) && WellFormed(root)
    ensures AllProper(Emit(root))
    ensures Run(InitialState, Emit(root)).Ok?
    ensures Run(InitialState, Emit(root)).value.root == Normal(root)
    ensures SameContent(root, Run(InitialState, Emit(root)).value.root)
  {
    assert Holds(InitialState, [], Explicit, []);
    RunBody(InitialState, root.entries, Explicit);
    NormalKeepsContent(root);
  }

  // ------------------------------------------------------------- idempotence

  lemma {:induction false} InlinedTwice(v: Tree)
    ensures Inlined(Inlined(v)) == Inlined(v)
    decreases v, 0
  {
    match v
    case Leaf(_) =>
    case Array(_, items) => InlinedItemsTwice(items);
    case Table(_, es) => InlinedEntriesTwice(es);
  }

  lemma {:induction false} InlinedItemsTwice(items: seq<Tree>)
    ensures InlinedItems(InlinedItems(items)) == InlinedItems(items)
    decreases items
  {
    if items != [] {
      InlinedTwice(items[0]);
      InlinedItemsTwice(items[1..]);
      assert InlinedItems(items)[1..] == InlinedItems(items[1..]);
    }
  }

  lemma {:induction false} InlinedEntriesTwice(es: seq<Entry>)
    ensures InlinedEntries(InlinedEntries(es)) == InlinedEntries(es)
    decreases es
  {
    if es != [] {
      InlinedTwice(es[0].value);
      InlinedEntriesTwice(es[1..]);
      assert InlinedEntries(es)[1..] == InlinedEntries(es[1..]);
    }
  }

  lemma {:induction false} KeyValsConcat(a: seq<Entry>, b: seq<Entry>)
    ensures KeyVals(a + b) == KeyVals(a) + KeyVals(b)
    decreases |a|
  {
    if a == [] {
      assert a + b == b;
    } else {
      Concat(a, b);
      KeyValsConcat(a[1..], b);
    }
  }

  lemma {:induction false} SectionsConcat(path: seq<Key>, a: seq<Entry>, b: seq<Entry>)
    ensures Sections(path, a + b) == Sections(path, a) + Sections(path, b)
    decreases |a|
  {
    if a == [] {
      assert a + b == b;
    } else {
      Concat(a, b);
      SectionsConcat(path, a[1..], b);
    }
  }

  /** The lines of the values, and of the sections, of a normal form. */
  lemma {:induction false} ValuesEmit(path: seq<Key>, es: seq<Entry>)
    ensures KeyVals(ValuesOf(es)) == KeyVals(es)
    ensures Sections(path, ValuesOf(es)) == []
    decreases |es|
  {
    if es != [] {
      ValuesEmit(path, es[1..]);
      if !IsSection(es[0].value) {
        InlinedTwice(es[0].value);
        InlinedIsNoSection(es[0].value);
        assert ValuesOf(es)[1..] == ValuesOf(es[1..]);
      }
    }
  }

  lemma {:induction false} SectionsEmit(path: seq<Key>, es: seq<Entry>)
    ensures KeyVals(SectionsOf(es)) == []
    ensures Sections(path, SectionsOf(es)) == Sections(path, es)
    decreases es, 0
  {
    if es != [] {
      SectionsEmit(path, es[1..]);
      if IsSection(es[0].value) {
        NormalIsSection(es[0].value);
        assert SectionsOf(es)[1..] == SectionsOf(es[1..]);
        match es[0].value
        case Table(_, sub) => BodyEmit(path + [es[0].key], sub);
        case Array(_, items) => ElementsEmit(path + [es[0].key], items);
      }
    }
  }

  lemma {:induction false} BodyEmit(path: seq<Key>, es: seq<Entry>)
    ensures Body(path, ValuesOf(es) + SectionsOf(es)) == Body(path, es)
    decreases es, 1
  {
    ValuesEmit(path, es);
    SectionsEmit(path, es);
    KeyValsConcat(ValuesOf(es), SectionsOf(es));
    SectionsConcat(path, ValuesOf(es), SectionsOf(es));
  }

  lemma {:induction false} ElementsEmit(path: seq<Key>, items: seq<Tree>)
    ensures Elements(path, NormalItems(items)) == Elements(path, items)
    decreases items
  {
    if items != [] {
      ElementsEmit(path, items[1..]);
      assert NormalItems(items)[1..] == NormalItems(items[1..]);
      match items[0]
      case Leaf(_) =>
      case Array(_, _) =>
      case Table(_, es) => BodyEmit(path, es);
    }
  }

  /** Emitting again gives the same lines. */
  lemma {:induction false} EmitNormal(root: Tree)
    requires root.Table?
    ensures Emit(Normal(root)) == Emit(root)
  {
    BodyEmit([], root.entries);
  }

  /** Whatever document the parser accepted, parsing what is emitted for it
      succeeds and gives the same content in normal form, which emits the same
      lines. */
  lemma {:induction false} ParseEmitParse(stmts: seq<Stmt>)
    requires AllProper(stmts) && Run(InitialState, stmts).Ok?
    ensures var root := Run(InitialState, stmts).value.root;
            && AllProper(Emit(root))
            && Run(InitialState, Emit(root)).Ok?
            && Run(InitialState, Emit(root)).value.root == Normal(root)
            && SameContent(root, Run(InitialState, Emit(root)).value.root)
            && Emit(Run(InitialState, Emit(root)).value.root) == Emit(root)
  {
    RunKeeps(InitialState, stmts);
    var root := Run(InitialState, stmts).value.root;
    EmitThenRun(root);
    EmitNormal(root);
  }
}
