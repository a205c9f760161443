/** Safety of definitions over whole runs: nodes keep their addresses, no two
    headers open the same table, and stored values never change. */
module Safety {
  import opened Document
  import opened Places
  import opened Statements

  // -------------------------------------------------------------- addresses

  datatype Sel = Field(key: Key) | Elem(index: nat)

  /** The node at an address: keys select entries, indexes select elements. */
  ghost function At(t: Tree, addr: seq<Sel>): Maybe<Tree>
    decreases |addr|
  {
    if addr == [] then Just(t)
    else match addr[0]
      case Field(k) =>
        if t.Table? && IndexOf(t.entries, k) < |t.entries|
        then At(t.entries[IndexOf(t.entries, k)].value, addr[1..]) else Nothing
      case Elem(i) =>
        if t.Array? && i < |t.items| then At(t.items[i], addr[1..]) else Nothing
  }

  /** One address leads to the other or through it. */
  ghost predicate Related(a: seq<Sel>, b: seq<Sel>) {
    a <= b || b <= a
  }

  lemma {:induction false} NotRelatedBelow(a: seq<Sel>, b: seq<Sel>)
    requires a != [] && b != [] && a[0] == b[0] && !Related(a, b)
    ensures !Related(a[1..], b[1..])
  {
  }

  /** The address of the table a header path leads to. */
  ghost function Address(t: Tree, path: seq<Key>): (addr: seq<Sel>)
    requires t.Table? && Leads(t, path)
    decreases |path|
  {
    if path == [] then []
    else
      var v := t.entries[IndexOf(t.entries, path[0])].value;
      [Field(path[0])] + (if v.Array? then [Elem(|v.items| - 1)] else []) + Address(Enter(v).value, path[1..])
  }

  lemma {:induction false} AtAddress(t: Tree, path: seq<Key>)
    requires t.Table? && Leads(t, path)
    ensures At(t, Address(t, path)) == Just(Get(t, path))
    decreases |path|
  {
    if path != [] {
      var v := t.entries[IndexOf(t.entries, path[0])].value;
      var rest := Address(Enter(v).value, path[1..]);
      AtAddress(Enter(v).value, path[1..]);
      if v.Array? {
        assert Address(t, path)[1..] == [Elem(|v.items| - 1)] + rest;
        assert ([Elem(|v.items| - 1)] + rest)[1..] == rest;
      } else {
        assert Address(t, path)[1..] == rest;
      }
    }
  }

  /** Growth keeps every node at its address, grown; a value - a scalar, a
      plain array, an inline table and all below it - is kept as it is. */
  lemma {:induction false} AtExtends(t: Tree, t': Tree, addr: seq<Sel>)
    requires WellFormed(t) && Extends(t, t') && At(t, addr).Just?
    ensures At(t', addr).Just? && Extends(At(t, addr).value, At(t', addr).value)
    ensures IsValue(At(t, addr).value) ==> At(t', addr) == At(t, addr)
    decreases |addr|
  {
    if addr == [] {
    } else if t' == t {
      ExtendsSelf(At(t, addr).value);
    } else {
      match addr[0]
      case Field(k) =>
        var i := IndexOf(t.entries, k);
        IndexOfIs(t'.entries, k, i);
        assert t.entries[i] in t.entries;
        AtExtends(t.entries[i].value, t'.entries[i].value, addr[1..]);
      case Elem(i) =>
        assert t.items[i] in t.items;
        AtExtends(t.items[i], t'.items[i], addr[1..]);
    }
  }

  lemma {:induction false} AtField(t: Tree, k: Key, rest: seq<Sel>)
    requires t.Table?
    ensures At(t, [Field(k)] + rest) ==
            if IndexOf(t.entries, k) < |t.entries| then At(t.entries[IndexOf(t.entries, k)].value, rest) else Nothing
  {
    assert ([Field(k)] + rest)[1..] == rest;
  }

  lemma {:induction false} AtElem(t: Tree, i: nat, rest: seq<Sel>)
    requires t.Array?
    ensures At(t, [Elem(i)] + rest) == if i < |t.items| then At(t.items[i], rest) else Nothing
  {
    assert ([Elem(i)] + rest)[1..] == rest;
  }

  /** The part of an address that leads through one entry value. */
  ghost function Through(v: Tree, rest: seq<Sel>): seq<Sel> {
    if v.Array? && v.items != [] then [Elem(|v.items| - 1)] + rest else rest
  }

  lemma {:induction false} AddressVia(t: Tree, path: seq<Key>)
    requires t.Table? && path != [] && Leads(t, path)
    ensures var v := t.entries[IndexOf(t.entries, path[0])].value;
            Address(t, path) == [Field(path[0])] + Through(v, Address(Enter(v).value, path[1..]))
  {
  }

  ghost predicate Unopened(o: Maybe<Tree>) {
    o.Nothing? || (o.value.Table? && o.value.flag.Implicit?)
  }

  /** Before the line that opens it, the table a header opens either is not
      there or is implicit. */
  lemma {:induction false} TargetIsNew(t: Tree, path: seq<Key>, aot: bool)
    requires t.Table? && path != [] && Define(t, path, aot).Ok?
    ensures Leads(Define(t, path, aot).value, path)
    ensures Unopened(At(t, Address(Define(t, path, aot).value, path)))
    decreases |path|
  {
    DefineLeads(t, path, aot);
    var r := Define(t, path, aot).value;
    var i := IndexOf(t.entries, path[0]);
    AddressVia(r, path);
    if i == |t.entries| {
      IndexOfAppend(t.entries, r.entries[i], path[0]);
      AtField(t, path[0], Through(r.entries[i].value, Address(Enter(r.entries[i].value).value, path[1..])));
    } else {
      SameKeys(t.entries, r.entries, path[0]);
      TargetIsNewThere(t, path, aot, i);
    }
  }

  /** Where a header leads within an entry that is already there. */
  lemma {:induction false} AtThrough(t: Tree, path: seq<Key>, r: Tree, i: nat)
    requires t.Table? && r.Table? && path != [] && Leads(r, path)
    requires i == IndexOf(t.entries, path[0]) < |t.entries| && i == IndexOf(r.entries, path[0])
    requires t.entries[i].value.Array? <==> r.entries[i].value.Array?
    ensures var v, v' := t.entries[i].value, r.entries[i].value;
            var rest := Address(Enter(v').value, path[1..]);
            At(t, Address(r, path)) ==
            if !v.Array? then At(v, rest)
            else if |v'.items| <= |v.items| then At(v.items[|v'.items| - 1], rest)
            else Nothing
  {
    var v, v' := t.entries[i].value, r.entries[i].value;
    AddressVia(r, path);
    var rest := Address(Enter(v').value, path[1..]);
    AtField(t, path[0], Through(v', rest));
    if v.Array? {
      AtElem(v, |v'.items| - 1, rest);
    }
  }

  lemma {:induction false} TargetIsNewThere(t: Tree, path: seq<Key>, aot: bool, i: nat)
    requires t.Table? && path != [] && Define(t, path, aot).Ok?
    requires i == IndexOf(t.entries, path[0]) < |t.entries| && i == IndexOf(Define(t, path, aot).value.entries, path[0])
    requires Leads(Define(t, path, aot).value, path)
    ensures Unopened(At(t, Address(Define(t, path, aot).value, path)))
    decreases |path|, 1
  {
    var r := Define(t, path, aot).value;
    var v, v' := t.entries[i].value, r.entries[i].value;
    if |path| > 1 {
      TargetIsNewBelow(t, path, aot, i);
    } else {
      AtThrough(t, path, r, i);
    }
  }

  lemma {:induction false} TargetIsNewBelow(t: Tree, path: seq<Key>, aot: bool, i: nat)
    requires t.Table? && |path| > 1 && Define(t, path, aot).Ok?
    requires i == IndexOf(t.entries, path[0]) < |t.entries| && i == IndexOf(Define(t, path, aot).value.entries, path[0])
    requires Leads(Define(t, path, aot).value, path)
    ensures Unopened(At(t, Address(Define(t, path, aot).value, path)))
    decreases |path|, 0
  {
    hide At, Address, Leads;
    var r := Define(t, path, aot).value;
    var v := t.entries[i].value;
    var s := Enter(v).value;
    var s' := Define(s, path[1..], aot).value;
    assert r.entries[i].value == Leave(v, s');
    TargetIsNew(s, path[1..], aot);
    DefineLeads(s, path[1..], aot);
    EnterLeave(v, s');
    AtThrough(t, path, r, i);
  }

  /** The document after the first `n` lines of an accepted run. */
  ghost function After(stmts: seq<Stmt>, n: nat): (st: State)
    requires AllProper(stmts) && Run(InitialState, stmts).Ok? && n <= |stmts|
    ensures Ready(st)
  {
    assert stmts == stmts[..n] + stmts[n..];
    RunConcat(InitialState, stmts[..n], stmts[n..]);
    Run(InitialState, stmts[..n]).value
  }

  lemma {:induction false} AfterIs(stmts: seq<Stmt>, n: nat)
    requires AllProper(stmts) && Run(InitialState, stmts).Ok? && n <= |stmts|
    ensures AllProper(stmts[..n])
    ensures Run(InitialState, stmts[..n]) == Ok(After(stmts, n))
  {
    assert stmts == stmts[..n] + stmts[n..];
    RunConcat(InitialState, stmts[..n], stmts[n..]);
  }

  lemma {:induction false} AfterNext(stmts: seq<Stmt>, n: nat)
    requires AllProper(stmts) && Run(InitialState, stmts).Ok? && n < |stmts|
    ensures Proper(stmts[n])
    ensures Step(After(stmts, n), stmts[n]) == Ok(After(stmts, n + 1))
  {
    hide Step;
    AfterIs(stmts, n);
    AfterIs(stmts, n + 1);
    assert stmts[..n + 1] == stmts[..n] + [stmts[n]];
    assert Proper(stmts[n]);
    RunSnoc(InitialState, stmts[..n], stmts[n]);
  }

  /** From one line to the next. */
  lemma {:induction false} AfterNextKeeps(stmts: seq<Stmt>, n: nat)
    requires AllProper(stmts) && Run(InitialState, stmts).Ok? && n < |stmts| && WellFormed(After(stmts, n).root)
    ensures WellFormed(After(stmts, n + 1).root)
    ensures Extends(After(stmts, n).root, After(stmts, n + 1).root)
  {
    AfterNext(stmts, n);
    StepKeeps(After(stmts, n), stmts[n]);
  }

  /** From any line to any later one. */
  lemma {:induction false} AfterKeeps(stmts: seq<Stmt>, m: nat, n: nat)
    requires AllProper(stmts) && Run(InitialState, stmts).Ok? && m <= n <= |stmts|
    ensures WellFormed(After(stmts, m).root) && WellFormed(After(stmts, n).root)
    ensures Extends(After(stmts, m).root, After(stmts, n).root)
    decreases n
  {
    if n == 0 {
      assert stmts[..0] == [];
      ExtendsSelf(After(stmts, 0).root);
    } else if m == n {
      AfterKeeps(stmts, n - 1, n - 1);
      AfterNextKeeps(stmts, n - 1);
      ExtendsSelf(After(stmts, n).root);
    } else {
      AfterKeeps(stmts, m, n - 1);
      AfterNextKeeps(stmts, n - 1);
      ExtendsTransitive(After(stmts, m).root, After(stmts, n - 1).root, After(stmts, n).root);
    }
  }

  ghost predicate OpensTable(s: Stmt) {
    s.Header? || s.AotHeader?
  }

  /** A header line defines its path in the document before it. */
  lemma {:induction false} OpeningLine(stmts: seq<Stmt>, n: nat)
    requires AllProper(stmts) && Run(InitialState, stmts).Ok? && n < |stmts| && OpensTable(stmts[n])
    ensures stmts[n].path != []
    ensures Define(After(stmts, n).root, stmts[n].path, stmts[n].AotHeader?) == Ok(After(stmts, n + 1).root)
    ensures Leads(After(stmts, n + 1).root, stmts[n].path)
  {
    AfterNext(stmts, n);
    DefineLeads(After(stmts, n).root, stmts[n].path, stmts[n].AotHeader?);
  }

  /** The address of the table that the header on line `n` opened. */
  ghost function Opened(stmts: seq<Stmt>, n: nat): seq<Sel>
    requires AllProper(stmts) && Run(InitialState, stmts).Ok? && n < |stmts| && OpensTable(stmts[n])
  {
    OpeningLine(stmts, n);
    Address(After(stmts, n + 1).root, stmts[n].path)
  }

  /** An explicit table is never the target of a later header. */
  lemma {:induction false} ExplicitIsNotOpened(t: Tree, p: seq<Key>, u: Tree, q: seq<Key>, aot: bool)
    requires t.Table? && Leads(t, p) && Get(t, p).flag.Explicit? && WellFormed(t) && Extends(t, u)
    requires u.Table? && q != [] && Define(u, q, aot).Ok? && Leads(Define(u, q, aot).value, q)
    ensures Address(t, p) != Address(Define(u, q, aot).value, q)
  {
    AtAddress(t, p);
    AtExtends(t, u, Address(t, p));
    TargetIsNew(u, q, aot);
  }

  /** No two headers of an accepted document open the same table. */
  lemma {:induction false} HeadersOpenDifferentTables(stmts: seq<Stmt>, m: nat, n: nat)
    requires AllProper(stmts) && Run(InitialState, stmts).Ok? && m < n < |stmts|
    requires OpensTable(stmts[m]) && OpensTable(stmts[n])
    ensures Opened(stmts, m) != Opened(stmts, n)
  {
    OpeningLine(stmts, m);
    OpeningLine(stmts, n);
    DefineLeads(After(stmts, m).root, stmts[m].path, stmts[m].AotHeader?);
    AfterKeeps(stmts, m + 1, n);
    ExplicitIsNotOpened(After(stmts, m + 1).root, stmts[m].path,
                        After(stmts, n).root, stmts[n].path, stmts[n].AotHeader?);
  }

  /** A value stored by any line of an accepted document is found, unchanged,
      at its address after every later line. */
  lemma {:induction false} ValuesNeverChange(stmts: seq<Stmt>, m: nat, n: nat, addr: seq<Sel>)
    requires AllProper(stmts) && Run(InitialState, stmts).Ok? && m <= n <= |stmts|
    requires At(After(stmts, m).root, addr).Just? && IsValue(At(After(stmts, m).root, addr).value)
    ensures At(After(stmts, n).root, addr) == At(After(stmts, m).root, addr)
  {
    AfterKeeps(stmts, m, n);
    AtExtends(After(stmts, m).root, After(stmts, n).root, addr);
  }
}
