/** Whole documents: the statement machine, and what every accepted run keeps. */
module Statements {
  import opened Sequences
  import opened Document
  import opened Places

  datatype Stmt =
    | Header(path: seq<Key>)
    | AotHeader(path: seq<Key>)
    | KeyVal(path: seq<Key>, value: Tree)

  /** The document so far, and the path of the table that keys go into. */
  datatype State = State(root: Tree, cur: seq<Key>)

  const InitialState := State(EmptyTable, [])

  ghost predicate Ready(st: State) {
    st.root.Table? && !st.root.flag.Inline? && Leads(st.root, st.cur) && !Get(st.root, st.cur).flag.Inline?
  }

  // --------------------------------------------------------- well-formedness

  /** A value all of whose tables and arrays render inline. */
  ghost predicate IsInner(v: Tree) {
    match v
    case Leaf(_) => true
    case Array(aot, items) => !aot && forall x | x in items :: IsInner(x)
    case Table(flag, es) =>
      (flag.Inline? || flag.Dotted?) && DistinctKeys(es) && forall e | e in es :: IsInner(e.value)
  }

  /** What the right of a `key = value` line denotes. */
  ghost predicate IsValue(v: Tree) {
    IsInner(v) && (v.Table? ==> v.flag.Inline?)
  }

  ghost predicate IsSectionTable(t: Tree) {
    t.Table? && !t.flag.Inline?
  }

  /** Sibling keys differ; arrays of tables are non-empty and hold section
      tables only; nothing below a plain array or an inline table is a section. */
  ghost predicate WellFormed(t: Tree) {
    match t
    case Leaf(_) => true
    case Array(aot, items) =>
      if aot then items != [] && forall x | x in items :: IsSectionTable(x) && WellFormed(x)
      else forall x | x in items :: IsInner(x)
    case Table(flag, es) =>
      if flag.Inline? then IsInner(t)
      else DistinctKeys(es) && forall e | e in es :: WellFormed(e.value)
  }

  ghost predicate Proper(stmt: Stmt) {
    stmt.path != [] && (stmt.KeyVal? ==> IsValue(stmt.value))
  }

  ghost predicate AllProper(stmts: seq<Stmt>) {
    forall s | s in stmts :: Proper(s)
  }

  // ------------------------------------------------------------------ steps

  /** The effect of one line. */
  ghost function Step(st: State, stmt: Stmt): (r: Result<State>)
    requires Ready(st) && Proper(stmt)
    ensures r.Ok? ==> Ready(r.value)
  {
    match stmt
    case Header(p) => StepDefine(st, p, false)
    case AotHeader(p) => StepDefine(st, p, true)
    case KeyVal(p, v) =>
      match Insert(Get(st.root, st.cur), p, v)
      case Ok(t) =>
        InsertFlag(Get(st.root, st.cur), p, v);
        GetPut(st.root, st.cur, t);
        PutFlag(st.root, st.cur, t);
        Ok(State(Put(st.root, st.cur, t), st.cur))
      case Err(e) => Err(e)
  }

  ghost function StepDefine(st: State, p: seq<Key>, aot: bool): (r: Result<State>)
    requires Ready(st) && p != []
    ensures r.Ok? ==> Ready(r.value)
  {
    match Define(st.root, p, aot)
    case Ok(root) => DefineLeads(st.root, p, aot); Ok(State(root, p))
    case Err(e) => Err(e)
  }

  /** The effect of a document; the first rejected line ends it. */
  ghost function Run(st: State, stmts: seq<Stmt>): (r: Result<State>)
    requires Ready(st) && AllProper(stmts)
    ensures r.Ok? ==> Ready(r.value)
    decreases |stmts|
  {
    if stmts == [] then Ok(st)
    else
      match Step(st, stmts[0])
      case Ok(st') => Run(st', stmts[1..])
      case Err(e) => Err(e)
  }

  lemma {:induction false} RunConcat(st: State, a: seq<Stmt>, b: seq<Stmt>)
    requires Ready(st) && AllProper(a) && AllProper(b)
    ensures AllProper(a + b)
    ensures Run(st, a + b) == if Run(st, a).Ok? then Run(Run(st, a).value, b) else Run(st, a)
    decreases |a|
  {
    assert AllProper(a + b) by {
      forall s | s in a + b ensures Proper(s) { assert s in a || s in b; }
    }
    if a == [] {
      assert a + b == b;
    } else {
      Concat(a, b);
      if Step(st, a[0]).Ok? {
        RunConcat(Step(st, a[0]).value, a[1..], b);
      }
    }
  }

  lemma {:induction false} RunSnoc(st: State, a: seq<Stmt>, s: Stmt)
    requires Ready(st) && AllProper(a) && Proper(s)
    ensures AllProper(a + [s])
    ensures Run(st, a + [s]) == if Run(st, a).Ok? then Step(Run(st, a).value, s) else Run(st, a)
  {
    RunConcat(st, a, [s]);
    if Run(st, a).Ok? {
      RunOne(Run(st, a).value, s);
    }
  }

  lemma {:induction false} RunOne(st: State, s: Stmt)
    requires Ready(st) && Proper(s)
    ensures Run(st, [s]) == Step(st, s)
  {
    if Step(st, s).Ok? {
      assert [s][1..] == [];
    }
  }

  // ----------------------------------------------------------------- growth

  /** `t'` is `t` grown: entries and elements are only appended, an implicit
      table may have become explicit, and values have not changed at all. */
  ghost predicate Extends(t: Tree, t': Tree)
    decreases t
  {
    match t
    case Leaf(_) => t' == t
    case Array(aot, items) =>
      if !aot then t' == t
      else
        && t'.Array? && t'.aot && |items| <= |t'.items|
        && forall i :: 0 <= i < |items| ==> Extends(items[i], t'.items[i])
    case Table(flag, es) =>
      if flag.Inline? then t' == t
      else
        && t'.Table? && (t'.flag == flag || (flag.Implicit? && t'.flag.Explicit?))
        && |es| <= |t'.entries|
        && forall i :: 0 <= i < |es| ==> es[i].key == t'.entries[i].key && Extends(es[i].value, t'.entries[i].value)
  }

  lemma {:induction false} ExtendsSelf(t: Tree)
    ensures Extends(t, t)
  {
    match t
    case Leaf(_) =>
    case Array(_, items) => forall i | 0 <= i < |items| ensures Extends(items[i], items[i]) { ExtendsSelf(items[i]); }
    case Table(_, es) =>
      forall i | 0 <= i < |es| ensures Extends(es[i].value, es[i].value) {
        ExtendsSelf(es[i].value);
      }
  }

  lemma {:induction false} ExtendsTransitive(a: Tree, b: Tree, c: Tree)
    requires Extends(a, b) && Extends(b, c)
    ensures Extends(a, c)
    decreases a
  {
    match a
    case Leaf(_) =>
    case Array(aot, items) =>
      if aot {
        forall i | 0 <= i < |items| ensures Extends(items[i], c.items[i]) {
          ExtendsTransitive(items[i], b.items[i], c.items[i]);
        }
      }
    case Table(flag, es) =>
      if !flag.Inline? {
        forall i | 0 <= i < |es| ensures es[i].key == c.entries[i].key && Extends(es[i].value, c.entries[i].value) {
          ExtendsTransitive(es[i].value, b.entries[i].value, c.entries[i].value);
        }
      }
  }

  /** Growing one value grows the table that holds it. */
  lemma {:induction false} ExtendsAt(t: Tree, i: nat, v: Tree)
    requires IsSectionTable(t) && i < |t.entries| && Extends(t.entries[i].value, v)
    ensures Extends(t, SetValue(t, i, v))
  {
    forall j | 0 <= j < |t.entries| ensures Extends(t.entries[j].value, SetValue(t, i, v).entries[j].value) {
      ExtendsSelf(t.entries[j].value);
    }
  }

  /** Growing the entered table grows the value it was entered through. */
  lemma {:induction false} ExtendsLeave(v: Tree, s: Tree)
    requires Enter(v).Ok? && s.Table? && Extends(Enter(v).value, s)
    ensures Extends(v, Leave(v, s))
  {
    if v.Array? {
      forall i | 0 <= i < |v.items| ensures Extends(v.items[i], Leave(v, s).items[i]) {
        ExtendsSelf(v.items[i]);
      }
    }
  }

  lemma {:induction false} ExtendsAppend(t: Tree, e: Entry)
    requires IsSectionTable(t)
    ensures Extends(t, t.(entries := t.entries + [e]))
  {
    ExtendsSelf(t);
  }

  lemma {:induction false} DefineExtends(t: Tree, path: seq<Key>, aot: bool)
    requires IsSectionTable(t) && WellFormed(t) && path != [] && Define(t, path, aot).Ok?
    ensures Extends(t, Define(t, path, aot).value)
    decreases |path|
  {
    var r := Define(t, path, aot).value;
    var i := IndexOf(t.entries, path[0]);
    if i == |t.entries| {
      ExtendsAppend(t, r.entries[i]);
    } else {
      var v := t.entries[i].value;
      assert WellFormed(v) by { assert t.entries[i] in t.entries; }
      if |path| == 1 {
        ExtendsSelf(v);
        ExtendsAt(t, i, r.entries[i].value);
      } else {
        var s := Enter(v).value;
        DefineExtends(s, path[1..], aot);
        ExtendsLeave(v, Define(s, path[1..], aot).value);
        ExtendsAt(t, i, r.entries[i].value);
      }
    }
  }

  lemma {:induction false} InsertExtends(t: Tree, path: seq<Key>, v: Tree)
    requires IsSectionTable(t) && path != [] && Insert(t, path, v).Ok?
    ensures Extends(t, Insert(t, path, v).value)
    decreases |path|
  {
    var r := Insert(t, path, v).value;
    var i := IndexOf(t.entries, path[0]);
    if i == |t.entries| {
      ExtendsAppend(t, r.entries[i]);
    } else {
      InsertExtends(t.entries[i].value, path[1..], v);
      ExtendsAt(t, i, r.entries[i].value);
    }
  }

  lemma {:induction false} PutExtends(t: Tree, path: seq<Key>, s: Tree)
    requires IsSectionTable(t) && WellFormed(t) && Leads(t, path) && s.Table? && Extends(Get(t, path), s)
    ensures Extends(t, Put(t, path, s))
    decreases |path|
  {
    if path != [] {
      var i := IndexOf(t.entries, path[0]);
      var v := t.entries[i].value;
      assert WellFormed(v) by { assert t.entries[i] in t.entries; }
      var u := Enter(v).value;
      PutExtends(u, path[1..], s);
      ExtendsLeave(v, Put(u, path[1..], s));
      ExtendsAt(t, i, Leave(v, Put(u, path[1..], s)));
    }
  }

  // ------------------------------------------------- what statements keep

  lemma {:induction false} WellFormedAt(t: Tree, i: nat, v: Tree)
    requires IsSectionTable(t) && WellFormed(t) && i < |t.entries| && WellFormed(v)
    ensures WellFormed(SetValue(t, i, v))
  {
    var es := SetValue(t, i, v).entries;
    forall e | e in es ensures WellFormed(e.value) {
      var j :| 0 <= j < |es| && es[j] == e;
      assert j != i ==> e in t.entries;
    }
  }

  lemma {:induction false} WellFormedAppend(t: Tree, e: Entry)
    requires IsSectionTable(t) && WellFormed(t) && WellFormed(e.value) && IndexOf(t.entries, e.key) == |t.entries|
    ensures WellFormed(t.(entries := t.entries + [e]))
  {
    forall x | x in t.entries + [e] ensures WellFormed(x.value) {
      assert x in t.entries || x == e;
    }
  }

  lemma {:induction false} WellFormedLeave(v: Tree, s: Tree)
    requires Enter(v).Ok? && WellFormed(v) && IsSectionTable(s) && WellFormed(s)
    ensures IsSectionTable(Enter(v).value) && WellFormed(Enter(v).value)
    ensures WellFormed(Leave(v, s))
  {
    if v.Array? {
      assert v.items[|v.items| - 1] in v.items;
      forall x | x in Leave(v, s).items ensures IsSectionTable(x) && WellFormed(x) {
        assert x in v.items || x == s;
      }
    }
  }

  lemma {:induction false} ValueWellFormed(v: Tree)
    requires IsValue(v)
    ensures WellFormed(v)
  {
  }

  lemma {:induction false} DefineWellFormed(t: Tree, path: seq<Key>, aot: bool)
    requires IsSectionTable(t) && WellFormed(t) && path != [] && Define(t, path, aot).Ok?
    ensures IsSectionTable(Define(t, path, aot).value) && WellFormed(Define(t, path, aot).value)
    decreases |path|
  {
    var r := Define(t, path, aot).value;
    var i := IndexOf(t.entries, path[0]);
    if i == |t.entries| {
      if |path| > 1 {
        DefineWellFormed(Table(Implicit, []), path[1..], aot);
      }
      WellFormedAppend(t, r.entries[i]);
    } else {
      var v := t.entries[i].value;
      assert WellFormed(v) by { assert t.entries[i] in t.entries; }
      if |path| > 1 {
        var s := Enter(v).value;
        EnteredWellFormed(v);
        DefineWellFormed(s, path[1..], aot);
        WellFormedLeave(v, Define(s, path[1..], aot).value);
      } else if aot {
        forall x | x in v.items + [EmptyTable] ensures IsSectionTable(x) && WellFormed(x) {
          assert x in v.items || x == EmptyTable;
        }
      }
      WellFormedAt(t, i, r.entries[i].value);
    }
  }

  lemma {:induction false} EnteredWellFormed(v: Tree)
    requires Enter(v).Ok? && WellFormed(v)
    ensures IsSectionTable(Enter(v).value) && WellFormed(Enter(v).value)
  {
    if v.Array? {
      assert v.items[|v.items| - 1] in v.items;
    }
  }

  lemma {:induction false} InsertWellFormed(t: Tree, path: seq<Key>, v: Tree)
    requires IsSectionTable(t) && WellFormed(t) && path != [] && Insert(t, path, v).Ok? && IsValue(v)
    ensures IsSectionTable(Insert(t, path, v).value) && WellFormed(Insert(t, path, v).value)
    decreases |path|
  {
    var r := Insert(t, path, v).value;
    var i := IndexOf(t.entries, path[0]);
    if i == |t.entries| {
      if |path| > 1 {
        InsertWellFormed(Table(Dotted, []), path[1..], v);
      }
      ValueWellFormed(v);
      WellFormedAppend(t, r.entries[i]);
    } else {
      assert WellFormed(t.entries[i].value) by { assert t.entries[i] in t.entries; }
      InsertWellFormed(t.entries[i].value, path[1..], v);
      WellFormedAt(t, i, r.entries[i].value);
    }
  }

  lemma {:induction false} GetWellFormed(t: Tree, path: seq<Key>)
    requires IsSectionTable(t) && WellFormed(t) && Leads(t, path)
    ensures IsSectionTable(Get(t, path)) && WellFormed(Get(t, path))
    decreases |path|
  {
    if path != [] {
      var i := IndexOf(t.entries, path[0]);
      assert WellFormed(t.entries[i].value) by { assert t.entries[i] in t.entries; }
      EnteredWellFormed(t.entries[i].value);
      GetWellFormed(Enter(t.entries[i].value).value, path[1..]);
    }
  }

  lemma {:induction false} PutWellFormed(t: Tree, path: seq<Key>, s: Tree)
    requires IsSectionTable(t) && WellFormed(t) && Leads(t, path) && IsSectionTable(s) && WellFormed(s)
    ensures IsSectionTable(Put(t, path, s)) && WellFormed(Put(t, path, s))
    decreases |path|
  {
    if path != [] {
      var i := IndexOf(t.entries, path[0]);
      var v := t.entries[i].value;
      assert WellFormed(v) by { assert t.entries[i] in t.entries; }
      EnteredWellFormed(v);
      PutWellFormed(Enter(v).value, path[1..], s);
      WellFormedLeave(v, Put(Enter(v).value, path[1..], s));
      WellFormedAt(t, i, Leave(v, Put(Enter(v).value, path[1..], s)));
    }
  }

  /** Every accepted line keeps the document well-formed and only grows it. */
  lemma {:induction false} StepKeeps(st: State, stmt: Stmt)
    requires Ready(st) && WellFormed(st.root) && Proper(stmt) && Step(st, stmt).Ok?
    ensures WellFormed(Step(st, stmt).value.root)
    ensures Extends(st.root, Step(st, stmt).value.root)
  {
    match stmt
    case Header(p) =>
      DefineWellFormed(st.root, p, false);
      DefineExtends(st.root, p, false);
    case AotHeader(p) =>
      DefineWellFormed(st.root, p, true);
      DefineExtends(st.root, p, true);
    case KeyVal(p, v) =>
      var t := Get(st.root, st.cur);
      GetWellFormed(st.root, st.cur);
      InsertWellFormed(t, p, v);
      InsertExtends(t, p, v);
      PutWellFormed(st.root, st.cur, Insert(t, p, v).value);
      PutExtends(st.root, st.cur, Insert(t, p, v).value);
  }

  /** Over a whole accepted run the document stays well-formed, and what it
      held at any point is still there, unchanged but for growth, at the end. */
  lemma {:induction false} RunKeeps(st: State, stmts: seq<Stmt>)
    requires Ready(st) && WellFormed(st.root) && AllProper(stmts) && Run(st, stmts).Ok?
    ensures WellFormed(Run(st, stmts).value.root)
    ensures Extends(st.root, Run(st, stmts).value.root)
    decreases |stmts|
  {
    if stmts == [] {
      ExtendsSelf(st.root);
    } else {
      StepKeeps(st, stmts[0]);
      var next := Step(st, stmts[0]).value;
      RunKeeps(next, stmts[1..]);
      ExtendsTransitive(st.root, next.root, Run(st, stmts).value.root);
    }
  }
}
