/** Laws of places: how reading and replacing the table at a path interact, and
    how header resolution and dotted insertion act below a path. */
module Places {
  import opened Sequences
  import opened Document

  /** The position of a key is determined by the keys alone. */
  lemma IndexOfIs(es: seq<Entry>, k: Key, i: nat)
    requires i <= |es| && (i < |es| ==> es[i].key == k)
    requires forall j :: 0 <= j < i ==> es[j].key != k
    ensures IndexOf(es, k) == i
  {
  }

  /** Sequences with the same keys find every key at the same position. */
  lemma SameKeys(es: seq<Entry>, es': seq<Entry>, k: Key)
    requires |es| == |es'| && forall j :: 0 <= j < |es| ==> es[j].key == es'[j].key
    ensures IndexOf(es', k) == IndexOf(es, k)
  {
    IndexOfIs(es', k, IndexOf(es, k));
  }

  /** Replacing a value keeps every key where it was. */
  lemma IndexOfSetValue(t: Tree, i: nat, v: Tree, k: Key)
    requires t.Table? && i < |t.entries|
    ensures IndexOf(SetValue(t, i, v).entries, k) == IndexOf(t.entries, k)
  {
    SameKeys(t.entries, SetValue(t, i, v).entries, k);
  }

  /** A key that is absent is found where it is appended. */
  lemma IndexOfAppend(es: seq<Entry>, e: Entry, k: Key)
    ensures IndexOf(es + [e], k) == if IndexOf(es, k) == |es| && e.key != k then |es| + 1 else IndexOf(es, k)
  {
    IndexOfIs(es + [e], k, if IndexOf(es, k) == |es| && e.key != k then |es| + 1 else IndexOf(es, k));
  }

  lemma EnterLeave(v: Tree, s: Tree)
    requires Enter(v).Ok? && s.Table?
    requires v.Table? ==> !s.flag.Inline?
    ensures Enter(Leave(v, s)) == Ok(s)
    ensures forall s2 :: Leave(Leave(v, s), s2) == Leave(v, s2)
  {
  }

  /** A table put somewhere is what is then found there. */
  lemma {:induction false} GetPut(t: Tree, path: seq<Key>, s: Tree)
    requires t.Table? && Leads(t, path) && s.Table? && !s.flag.Inline?
    ensures Leads(Put(t, path, s), path)
    ensures Get(Put(t, path, s), path) == s
    decreases |path|
  {
    if path != [] {
      var i := IndexOf(t.entries, path[0]);
      var v := t.entries[i].value;
      var below := Put(Enter(v).value, path[1..], s);
      GetPut(Enter(v).value, path[1..], s);
      PutFlag(Enter(v).value, path[1..], s);
      EnterLeave(v, below);
      IndexOfSetValue(t, i, Leave(v, below), path[0]);
    }
  }

  /** Only the table at the end of the path can change its flag. */
  lemma PutFlag(t: Tree, path: seq<Key>, s: Tree)
    requires t.Table? && Leads(t, path) && s.Table?
    ensures path != [] ==> Put(t, path, s).flag == t.flag
  {
  }

  /** The last table put somewhere wins. */
  lemma {:induction false} PutPut(t: Tree, path: seq<Key>, a: Tree, b: Tree)
    requires t.Table? && Leads(t, path) && a.Table? && b.Table? && !a.flag.Inline?
    ensures Leads(Put(t, path, a), path)
    ensures Put(Put(t, path, a), path, b) == Put(t, path, b)
    decreases |path|
  {
    GetPut(t, path, a);
    if path != [] {
      var i := IndexOf(t.entries, path[0]);
      var v := t.entries[i].value;
      var below := Put(Enter(v).value, path[1..], a);
      PutPut(Enter(v).value, path[1..], a, b);
      PutFlag(Enter(v).value, path[1..], a);
      EnterLeave(v, below);
      IndexOfSetValue(t, i, Leave(v, below), path[0]);
    }
  }

  /** Putting back what is there changes nothing. */
  lemma {:induction false} PutSame(t: Tree, path: seq<Key>)
    requires t.Table? && Leads(t, path)
    ensures Put(t, path, Get(t, path)) == t
    decreases |path|
  {
    if path != [] {
      var i := IndexOf(t.entries, path[0]);
      var v := t.entries[i].value;
      PutSame(Enter(v).value, path[1..]);
      assert Leave(v, Enter(v).value) == v;
    }
  }

  /** A path leads on from where its first part leads to. */
  lemma {:induction false} LeadsConcat(t: Tree, p: seq<Key>, q: seq<Key>)
    requires t.Table? && Leads(t, p)
    ensures Leads(t, p + q) <==> Leads(Get(t, p), q)
    ensures Leads(t, p + q) ==> Get(t, p + q) == Get(Get(t, p), q)
    decreases |p|
  {
    if p == [] {
      assert p + q == q;
    } else {
      Concat(p, q);
      LeadsConcat(Enter(t.entries[IndexOf(t.entries, p[0])].value).value, p[1..], q);
    }
  }

  lemma {:induction false} PutConcat(t: Tree, p: seq<Key>, q: seq<Key>, s: Tree)
    requires t.Table? && Leads(t, p) && Leads(Get(t, p), q) && s.Table?
    ensures Leads(t, p + q)
    ensures Put(t, p + q, s) == Put(t, p, Put(Get(t, p), q, s))
    decreases |p|
  {
    LeadsConcat(t, p, q);
    if p == [] {
      assert p + q == q;
    } else {
      Concat(p, q);
      PutConcat(Enter(t.entries[IndexOf(t.entries, p[0])].value).value, p[1..], q, s);
    }
  }

  /** The result `r` of working on the table at `p`, seen from the root. */
  ghost function Lift(t: Tree, p: seq<Key>, r: Result<Tree>): Result<Tree>
    requires t.Table? && Leads(t, p) && (r.Ok? ==> r.value.Table?)
  {
    match r
    case Ok(s) => Ok(Put(t, p, s))
    case Err(e) => Err(e)
  }

  /** A header whose first parts exist acts as its remaining parts do on the
      table those first parts lead to. */
  lemma {:induction false} DefineLift(t: Tree, p: seq<Key>, q: seq<Key>, aot: bool)
    requires t.Table? && Leads(t, p) && q != []
    ensures Define(t, p + q, aot) == Lift(t, p, Define(Get(t, p), q, aot))
    decreases |p|
  {
    if p == [] {
      assert p + q == q;
    } else {
      Concat(p, q);
      DefineLift(Enter(t.entries[IndexOf(t.entries, p[0])].value).value, p[1..], q, aot);
    }
  }

  /** `path` leads from `t` through tables made by dotted keys only. */
  ghost predicate LeadsDotted(t: Tree, path: seq<Key>)
    requires t.Table?
    decreases |path|
  {
    path == [] ||
    var i := IndexOf(t.entries, path[0]);
    i < |t.entries| && EnterDotted(t.entries[i].value).Ok? && LeadsDotted(t.entries[i].value, path[1..])
  }

  lemma {:induction false} DottedLeads(t: Tree, path: seq<Key>)
    requires t.Table? && LeadsDotted(t, path)
    ensures Leads(t, path)
    ensures path != [] ==> Get(t, path).flag.Dotted?
    decreases |path|
  {
    if path != [] {
      DottedLeads(t.entries[IndexOf(t.entries, path[0])].value, path[1..]);
    }
  }

  lemma {:induction false} LeadsDottedConcat(t: Tree, p: seq<Key>, q: seq<Key>)
    requires t.Table? && LeadsDotted(t, p)
    ensures Leads(t, p)
    ensures LeadsDotted(t, p + q) <==> LeadsDotted(Get(t, p), q)
    decreases |p|
  {
    DottedLeads(t, p);
    if p == [] {
      assert p + q == q;
    } else {
      Concat(p, q);
      LeadsDottedConcat(t.entries[IndexOf(t.entries, p[0])].value, p[1..], q);
    }
  }

  /** A dotted key whose first parts exist acts as its remaining parts do on
      the table those first parts lead to. */
  lemma {:induction false} InsertLift(t: Tree, p: seq<Key>, q: seq<Key>, v: Tree)
    requires t.Table? && LeadsDotted(t, p) && q != []
    ensures Leads(t, p)
    ensures Insert(t, p + q, v) == Lift(t, p, Insert(Get(t, p), q, v))
    decreases |p|
  {
    DottedLeads(t, p);
    if p == [] {
      assert p + q == q;
    } else {
      Concat(p, q);
      InsertLift(t.entries[IndexOf(t.entries, p[0])].value, p[1..], q, v);
    }
  }

  /** An accepted header leads to the table it opens, which is then explicit. */
  lemma {:induction false} DefineLeads(t: Tree, path: seq<Key>, aot: bool)
    requires t.Table? && path != [] && Define(t, path, aot).Ok?
    ensures Leads(Define(t, path, aot).value, path)
    ensures Get(Define(t, path, aot).value, path).flag == Explicit
    ensures Define(t, path, aot).value.flag == t.flag
    decreases |path|
  {
    var r := Define(t, path, aot).value;
    var i := IndexOf(t.entries, path[0]);
    assert IndexOf(r.entries, path[0]) == i by {
      if i == |t.entries| {
        IndexOfAppend(t.entries, r.entries[i], path[0]);
      } else {
        SameKeys(t.entries, r.entries, path[0]);
      }
    }
    if |path| == 1 {
      assert path[1..] == [];
    } else if i == |t.entries| {
      DefineLeads(Table(Implicit, []), path[1..], aot);
    } else {
      var v := t.entries[i].value;
      DefineLeads(Enter(v).value, path[1..], aot);
      var s' := Define(Enter(v).value, path[1..], aot).value;
      EnterLeave(v, s');
      assert r.entries[i].value == Leave(v, s');
    }
  }

  /** Inserting keys keeps the flag of the table they go into. */
  lemma InsertFlag(t: Tree, path: seq<Key>, v: Tree)
    requires t.Table? && path != [] && Insert(t, path, v).Ok?
    ensures Insert(t, path, v).value.flag == t.flag
  {
  }
}
