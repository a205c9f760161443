/** Dotted-key insertion over the arena: each step the parser takes, and the
    effect it has on the current table and on the document. */
module Insertion {
  import opened Document
  import opened Places
  import opened Statements
  import opened Arena
  import opened Resolution

  lemma {:induction false} InsertImplicit(t: Tree, path: seq<Key>, v: Tree)
    requires t.Table? && |path| > 1 && IndexOf(t.entries, path[0]) == |t.entries|
    ensures Insert(t.(entries := t.entries + [Entry(path[0], Table(Dotted, []))]), path, v) == Insert(t, path, v)
  {
    var e := Entry(path[0], Table(Dotted, []));
    var t' := t.(entries := t.entries + [e]);
    IndexOfAppend(t.entries, e, path[0]);
    match Insert(Table(Dotted, []), path[1..], v)
    case Ok(s) => assert SetValue(t', |t.entries|, s).entries == t.entries + [Entry(path[0], s)];
    case Err(_) =>
  }

  lemma {:induction false} InsertPutImplicit(t: Tree, p: seq<Key>, q: seq<Key>, v: Tree)
    requires t.Table? && LeadsDotted(t, p) && |q| > 1 && (p == [] ==> !t.flag.Inline?)
    requires Leads(t, p) && IndexOf(Get(t, p).entries, q[0]) == |Get(t, p).entries|
    ensures var b := Get(t, p);
            Insert(Put(t, p, b.(entries := b.entries + [Entry(q[0], Table(Dotted, []))])), p + q, v) ==
              Insert(t, p + q, v)
  {
    var b := Get(t, p);
    var a := b.(entries := b.entries + [Entry(q[0], Table(Dotted, []))]);
    DottedLeads(t, p);
    InsertImplicit(b, q, v);
    InsertLift(t, p, q, v);
    GetPut(t, p, a);
    DottedPut(t, p, a);
    InsertLift(Put(t, p, a), p, q, v);
    if Insert(b, q, v).Ok? {
      PutPut(t, p, a, Insert(b, q, v).value);
    }
  }

  lemma {:induction false} DottedPut(t: Tree, p: seq<Key>, s: Tree)
    requires t.Table? && LeadsDotted(t, p) && Leads(t, p) && s.Table? && (p != [] ==> s.flag.Dotted?)
    ensures LeadsDotted(Put(t, p, s), p)
    decreases |p|
  {
    if p != [] {
      var i := IndexOf(t.entries, p[0]);
      var v := t.entries[i].value;
      var below := Put(v, p[1..], s);
      DottedPut(v, p[1..], s);
      PutFlag(v, p[1..], s);
      IndexOfSetValue(t, i, below, p[0]);
    }
  }

  /** Dotted-key insertion stands at table cell `t`, having walked `p` from the
      current table `c`, which `path` leads to. */
  ghost predicate StandsBelow(h: Heap, up: seq<nat>, path: seq<Key>, c: nat, p: seq<Key>, t: nat) {
    && Stands(h, up, path, c) && Follows(h, c, p, t) && t < |h| && h[t].TableCell?
    && ToTree(h, c).Table? && LeadsDotted(ToTree(h, c), p)
  }

  /** `h'` is `h` but for the tree of the current table `c`. */
  ghost predicate OnlyCurrent(h: Heap, path: seq<Key>, c: nat, h': Heap)
    requires Ordered(h) && h != [] && h[0].TableCell? && c < |h|
    requires Ordered(h') && h' != [] && h'[0].TableCell? && c < |h'|
  {
    && Leads(Doc(h), path) && ToTree(h', c).Table? && ToTree(h, c).Table? && ToTree(h', c).flag == ToTree(h, c).flag
    && Doc(h') == Put(Doc(h), path, ToTree(h', c))
  }

  ghost predicate KeyDone(h: Heap, up: seq<nat>, path: seq<Key>, c: nat, parts: seq<Key>, v: Tree,
                          h': Heap, up': seq<nat>, r: Result<()>)
    requires Stands(h, up, path, c) && parts != []
  {
    && ToTree(h, c).Table?
    && match Insert(ToTree(h, c), parts, v)
       case Ok(s) => r == Ok(()) && Stands(h', up', path, c) && ToTree(h', c) == s && OnlyCurrent(h, path, c, h')
       case Err(e) => r == Err(e) && h' == h && up' == up
  }

  /** The checks on an existing part's cell. */
  function StepDotted(h: Heap, v: nat): (r: Result<nat>)
    requires v < |h|
  {
    match h[v]
    case ValueCell(w) => Err(if w.Table? then ExtendsInline else NotATable)
    case ArrayCell(_, _) => Err(NotATable)
    case TableCell(flag, _) =>
      if flag.Inline? then Err(ExtendsInline)
      else if flag.Implicit? || flag.Explicit? then Err(ExtendsHeader)
      else Ok(v)
  }

  /** Only the current table's tree differs after a new entry below it. */
  lemma {:induction false} LinkedBelow(h: Heap, up: seq<nat>, h': Heap, up': seq<nat>, path: seq<Key>, c: nat,
                                       p: seq<Key>, t: nat, k: Key, cell: Cell)
    requires StandsBelow(h, up, path, c, p, t) && LinkOf(h[t].links, k) == |h[t].links|
    requires Links(h, up, h', up', t, k, cell)
    requires cell.ValueCell? ==> IsValue(cell.value)
    requires cell.TableCell? ==> !cell.flag.Inline?
    requires !cell.ArrayCell?
    ensures Stands(h', up', path, c) && OnlyCurrent(h, path, c, h')
    ensures Leads(ToTree(h, c), p) && Get(ToTree(h, c), p) == ToTree(h, t)
    ensures ToTree(h', c) == Put(ToTree(h, c), p, ToTree(h', t))
  {
    assert ParserCell(h, t);
    LinkedAt(h, up, h', up', c, p, t, k, cell);
    FollowsAbove(h, up, c, p, t);
    FollowsStill(h, up, h', up', 0, path, c, t);
    FollowsPut(h, up, h', up', 0, path, c, t);
    CellsStill(h, up, h', up', t, |h| + 1);
    ToTreeFlag(h, c);
    ToTreeFlag(h', c);
  }

  lemma {:induction false} KeyPartCell(h: Heap, up: seq<nat>, path: seq<Key>, c: nat, p: seq<Key>, t: nat, k: Key)
    requires StandsBelow(h, up, path, c, p, t) && LinkOf(h[t].links, k) < |h[t].links|
    ensures var e := LinkOf(h[t].links, k);
            var x := h[t].links[e].node;
            && x < |h| && Kid(h[t], e) == x && ParserCell(h, x)
            && ToTree(h, t).Table? && IndexOf(ToTree(h, t).entries, k) == e < |ToTree(h, t).entries|
            && ToTree(h, t).entries[e].value == ToTree(h, x)
            && Leads(ToTree(h, c), p) && Get(ToTree(h, c), p) == ToTree(h, t)
  {
    var e := LinkOf(h[t].links, k);
    var x := h[t].links[e].node;
    assert Kid(h[t], e) == x;
    assert ParserCell(h, x);
    FollowsTree(h, c, p, t);
    LinkOfTree(h, t, k);
  }

  /** A dotted key goes on through a part that a dotted key made. */
  lemma {:induction false} KeyEnterOld(h: Heap, up: seq<nat>, path: seq<Key>, c: nat, p: seq<Key>, t: nat, k: Key)
    requires StandsBelow(h, up, path, c, p, t) && LinkOf(h[t].links, k) < |h[t].links|
    requires var x := h[t].links[LinkOf(h[t].links, k)].node; x < |h| && StepDotted(h, x).Ok?
    ensures StandsBelow(h, up, path, c, p + [k], h[t].links[LinkOf(h[t].links, k)].node)
  {
    KeyPartCell(h, up, path, c, p, t, k);
    var x := h[t].links[LinkOf(h[t].links, k)].node;
    FollowsMore(h, c, p, t, k);
    ToTreeFlag(h, x);
    assert LeadsDotted(ToTree(h, t), [k]) by { assert [k][1..] == []; }
    LeadsDottedConcat(ToTree(h, c), p, [k]);
  }

  /** A dotted key ends at a part that it may not extend. */
  lemma {:induction false} KeyStop(h: Heap, up: seq<nat>, path: seq<Key>, c: nat, p: seq<Key>, t: nat,
                                   q: seq<Key>, v: Tree)
    requires StandsBelow(h, up, path, c, p, t) && |q| > 1 && LinkOf(h[t].links, q[0]) < |h[t].links|
    requires var x := h[t].links[LinkOf(h[t].links, q[0])].node; x < |h| && StepDotted(h, x).Err?
    ensures Insert(ToTree(h, c), p + q, v) == Err(StepDotted(h, h[t].links[LinkOf(h[t].links, q[0])].node).error)
  {
    KeyPartCell(h, up, path, c, p, t, q[0]);
    var x := h[t].links[LinkOf(h[t].links, q[0])].node;
    if h[x].TableCell? {
      ToTreeFlag(h, x);
    }
    InsertLift(ToTree(h, c), p, q, v);
  }

  /** A dotted key goes on through a part it has just made. */
  lemma {:induction false} KeyEnterNew(h: Heap, up: seq<nat>, h': Heap, up': seq<nat>, path: seq<Key>, c: nat,
                                       p: seq<Key>, t: nat, q: seq<Key>, v: Tree)
    requires StandsBelow(h, up, path, c, p, t) && |q| > 1 && LinkOf(h[t].links, q[0]) == |h[t].links|
    requires Links(h, up, h', up', t, q[0], TableCell(Dotted, []))
    ensures StandsBelow(h', up', path, c, p + [q[0]], |h|) && h'[|h|].links == []
    ensures Insert(ToTree(h', c), p + q, v) == Insert(ToTree(h, c), p + q, v)
    ensures OnlyCurrent(h, path, c, h')
  {
    assert ParserCell(h, c);
    LinkedBelow(h, up, h', up', path, c, p, t, q[0], TableCell(Dotted, []));
    LinkedAt(h, up, h', up', c, p, t, q[0], TableCell(Dotted, []));
    LinkOfTree(h, t, q[0]);
    ToTreeFlag(h, t);
    ToTreeFlag(h, c);
    DottedLeads(ToTree(h, c), p);
    InsertPutImplicit(ToTree(h, c), p, q, v);
    DottedMore(ToTree(h, c), p, q[0]);
  }

  /** A new table below a dotted path is below a dotted path. */
  lemma {:induction false} DottedMore(t: Tree, p: seq<Key>, k: Key)
    requires t.Table? && !t.flag.Inline? && LeadsDotted(t, p) && Leads(t, p)
    requires IndexOf(Get(t, p).entries, k) == |Get(t, p).entries|
    ensures var b := Get(t, p);
            LeadsDotted(Put(t, p, b.(entries := b.entries + [Entry(k, Table(Dotted, []))])), p + [k])
  {
    var b := Get(t, p);
    var a := b.(entries := b.entries + [Entry(k, Table(Dotted, []))]);
    DottedLeads(t, p);
    DottedPut(t, p, a);
    GetPut(t, p, a);
    IndexOfAppend(b.entries, Entry(k, Table(Dotted, [])), k);
    assert LeadsDotted(a, [k]) by { assert [k][1..] == []; }
    LeadsDottedConcat(Put(t, p, a), p, [k]);
  }

  lemma {:induction false} KeyLast(h: Heap, up: seq<nat>, h': Heap, up': seq<nat>, path: seq<Key>, c: nat,
                                   p: seq<Key>, t: nat, k: Key, v: Tree)
    requires StandsBelow(h, up, path, c, p, t) && IsValue(v)
    requires if LinkOf(h[t].links, k) == |h[t].links| then Links(h, up, h', up', t, k, ValueCell(v))
             else h' == h && up' == up
    ensures KeyDone(h, up, path, c, p + [k], v, h', up',
                    if LinkOf(h[t].links, k) == |h[t].links| then Ok(()) else Err(DuplicateKey))
  {
    FollowsTree(h, c, p, t);
    LinkOfTree(h, t, k);
    ToTreeFlag(h, t);
    InsertLift(ToTree(h, c), p, [k], v);
    if LinkOf(h[t].links, k) == |h[t].links| {
      LinkedBelow(h, up, h', up', path, c, p, t, k, ValueCell(v));
    }
  }

  lemma {:induction false} OnlyCurrentSelf(h: Heap, up: seq<nat>, path: seq<Key>, c: nat)
    requires Stands(h, up, path, c)
    ensures OnlyCurrent(h, path, c, h)
  {
    FollowsTree(h, 0, path, c);
    ToTreeFlag(h, c);
    PutSame(Doc(h), path);
  }

  lemma {:induction false} OnlyCurrentTwice(h0: Heap, path: seq<Key>, c: nat, h: Heap, h': Heap, up': seq<nat>)
    requires Ordered(h0) && h0 != [] && h0[0].TableCell? && c < |h0|
    requires Ordered(h) && h != [] && h[0].TableCell? && c < |h| && h[c].TableCell? && !h[c].flag.Inline?
    requires Stands(h', up', path, c)
    requires OnlyCurrent(h0, path, c, h) && OnlyCurrent(h, path, c, h')
    ensures OnlyCurrent(h0, path, c, h')
  {
    ToTreeFlag(h, c);
    PutPut(Doc(h0), path, ToTree(h, c), ToTree(h', c));
  }

  /** Where dotted-key insertion is after `i` parts. */
  ghost predicate KeyLoop(h0: Heap, up0: seq<nat>, path: seq<Key>, c: nat, parts: seq<Key>, v: Tree, i: nat,
                          h: Heap, up: seq<nat>, t: nat)
  {
    && i < |parts| && Stands(h0, up0, path, c) && ToTree(h0, c).Table?
    && StandsBelow(h, up, path, c, parts[..i], t)
    && OnlyCurrent(h0, path, c, h)
    && Insert(ToTree(h, c), parts, v) == Insert(ToTree(h0, c), parts, v)
    && ((h == h0 && up == up0) || h[t].links == [])
  }

  lemma {:induction false} KeyLoopStart(h: Heap, up: seq<nat>, path: seq<Key>, c: nat, parts: seq<Key>, v: Tree)
    requires Stands(h, up, path, c) && parts != []
    ensures KeyLoop(h, up, path, c, parts, v, 0, h, up, c)
  {
    ToTreeFlag(h, c);
    OnlyCurrentSelf(h, up, path, c);
  }

  lemma {:induction false} KeyLoopNew(h0: Heap, up0: seq<nat>, path: seq<Key>, c: nat, parts: seq<Key>, v: Tree, i: nat,
                                      h: Heap, up: seq<nat>, t: nat, h': Heap, up': seq<nat>)
    requires KeyLoop(h0, up0, path, c, parts, v, i, h, up, t) && i + 1 < |parts|
    requires LinkOf(h[t].links, parts[i]) == |h[t].links|
    requires Links(h, up, h', up', t, parts[i], TableCell(Dotted, []))
    ensures KeyLoop(h0, up0, path, c, parts, v, i + 1, h', up', |h|)
  {
    assert parts == parts[..i] + parts[i..];
    assert parts[..i + 1] == parts[..i] + [parts[i]];
    KeyEnterNew(h, up, h', up', path, c, parts[..i], t, parts[i..], v);
    assert ParserCell(h, c);
    OnlyCurrentTwice(h0, path, c, h, h', up');
  }

  lemma {:induction false} KeyLoopOld(h0: Heap, up0: seq<nat>, path: seq<Key>, c: nat, parts: seq<Key>, v: Tree, i: nat,
                                      h: Heap, up: seq<nat>, t: nat)
    requires KeyLoop(h0, up0, path, c, parts, v, i, h, up, t) && i + 1 < |parts|
    requires LinkOf(h[t].links, parts[i]) < |h[t].links|
    ensures var x := h[t].links[LinkOf(h[t].links, parts[i])].node;
            && x < |h|
            && match StepDotted(h, x)
               case Ok(_) => KeyLoop(h0, up0, path, c, parts, v, i + 1, h, up, x)
               case Err(e) => KeyDone(h0, up0, path, c, parts, v, h, up, Err(e))
  {
    assert parts == parts[..i] + parts[i..];
    assert parts[..i + 1] == parts[..i] + [parts[i]];
    assert h[t].links != [];
    var x := h[t].links[LinkOf(h[t].links, parts[i])].node;
    assert Kid(h[t], LinkOf(h[t].links, parts[i])) == x;
    if StepDotted(h, x).Ok? {
      KeyEnterOld(h, up, path, c, parts[..i], t, parts[i]);
    } else {
      KeyStop(h, up, path, c, parts[..i], t, parts[i..], v);
    }
  }

  lemma {:induction false} KeyLoopEnd(h0: Heap, up0: seq<nat>, path: seq<Key>, c: nat, parts: seq<Key>, v: Tree, i: nat,
                                      h: Heap, up: seq<nat>, t: nat, h': Heap, up': seq<nat>)
    requires KeyLoop(h0, up0, path, c, parts, v, i, h, up, t) && i + 1 == |parts| && IsValue(v)
    requires if LinkOf(h[t].links, parts[i]) == |h[t].links| then Links(h, up, h', up', t, parts[i], ValueCell(v))
             else h' == h && up' == up
    ensures KeyDone(h0, up0, path, c, parts, v, h', up',
                    if LinkOf(h[t].links, parts[i]) == |h[t].links| then Ok(()) else Err(DuplicateKey))
  {
    assert parts == parts[..i] + [parts[i]];
    KeyLast(h, up, h', up', path, c, parts[..i], t, parts[i], v);
    if LinkOf(h[t].links, parts[i]) == |h[t].links| {
      assert ParserCell(h, c);
      OnlyCurrentTwice(h0, path, c, h, h', up');
    }
  }
}
