/** The parser's statement loop over the arena, changed in place as the source
    does it and proved to have the effect `Statements` gives each line. */
module Parser {
  import opened Document
  import opened Statements
  import opened Arena
  import opened Resolution
  import opened Insertion

  /** The lines that a fused path can take, if spelled with bare parts. */
  predicate MayBePlain(stmt: Stmt) {
    match stmt
    case Header(p) => |p| <= 8
    case AotHeader(_) => false
    case KeyVal(p, _) => |p| == 1
  }

  class Parser {
    var heap: seq<Cell>
    var cur: nat             // the table that keys go into
    ghost var up: seq<nat>
    ghost var path: seq<Key> // the path that leads to it

    ghost predicate Valid()
      reads this
    {
      Stands(heap, up, path, cur)
    }

    /** The document so far, and where its keys go. */
    ghost function Abs(): State
      reads this
      requires Valid()
    {
      State(Doc(heap), path)
    }

    constructor ()
      ensures Valid() && Abs() == InitialState
    {
      heap := [TableCell(Explicit, [])];
      cur := 0;
      up := [0];
      path := [];
    }

    /** Allocates a cell and links it at the end of table `t`. */
    method Link(t: nat, k: Key, c: Cell) returns (child: nat)
      requires Shaped(heap, up) && t < |heap| && heap[t].TableCell? && Count(c) == 0
      modifies this`heap, this`up
      ensures child == |old(heap)| && Links(old(heap), old(up), heap, up, t, k, c)
    {
      AddEntry(heap, up, t, k, c);
      child := |heap|;
      heap := heap[t := TableCell(heap[t].flag, heap[t].links + [Arena.Link(k, child)])] + [c];
      up := up + [t];
    }

    /** Finds or makes the table a header opens. */
    method ResolveHeader(parts: seq<Key>, aot: bool) returns (r: Result<nat>)
      requires Valid() && parts != []
      modifies this`heap, this`up
      ensures HeaderDone(old(heap), old(up), parts, aot, heap, up, r)
    {
      hide Define, Doc, HeaderDone;
      var t, i := 0, 0;
      while i + 1 < |parts|
        invariant 0 <= t && 0 <= i && HeaderLoop(old(heap), old(up), parts, aot, i, heap, up, t)
      {
        ghost var h, u := heap, up;
        var e := LinkOf(heap[t].links, parts[i]);
        if e == |heap[t].links| {
          var child := Link(t, parts[i], TableCell(Implicit, []));
          HeaderLoopNew(old(heap), old(up), parts, aot, i, h, u, t, heap, up);
          t := child;
        } else {
          HeaderLoopOld(old(heap), old(up), parts, aot, i, heap, up, t);
          var v := heap[t].links[e].node;
          var next := StepInto(heap, v);
          if next.Err? {
            return Err(next.error);
          }
          t := next.value;
        }
        i := i + 1;
      }
      ghost var h, u := heap, up;
      r := ResolveLast(t, parts[..i], parts[i], aot);
      HeaderLoopEnd(old(heap), old(up), parts, aot, i, h, u, t, heap, up, r);
    }

    /** The last part of a header, in the table its other parts lead to. */
    method ResolveLast(t: nat, ghost p: seq<Key>, k: Key, aot: bool) returns (r: Result<nat>)
      requires Stands(heap, up, p, t)
      modifies this`heap, this`up
      ensures HeaderDone(old(heap), old(up), p + [k], aot, heap, up, r)
    {
      var e := LinkOf(heap[t].links, k);
      ghost var h, u := heap, up;
      if aot {
        var v;
        if e == |heap[t].links| {
          v := Link(t, k, ArrayCell(true, []));
          ElementNew(h, u, heap, up, p, t, k);
        } else {
          ElementOld(heap, up, p, t, k);
          v := heap[t].links[e].node;
          if !heap[v].ArrayCell? || !heap[v].aot {
            return Err(RedefinedAsAot);
          }
        }
        r := Ok(|heap|);
        heap := heap[v := ArrayCell(true, heap[v].items + [|heap|])] + [TableCell(Explicit, [])];
        up := up + [v];
      } else if e == |heap[t].links| {
        var child := Link(t, k, TableCell(Explicit, []));
        LastNew(h, u, heap, up, p, t, k);
        r := Ok(child);
      } else {
        LastOld(heap, up, p, t, k);
        var v := heap[t].links[e].node;
        if heap[v].TableCell? && heap[v].flag.Implicit? {
          heap := heap[v := heap[v].(flag := Explicit)];
          r := Ok(v);
        } else {
          r := Err(DefinedTwice);
        }
      }
    }

    /** Inserts `parts = v` into the current table. */
    method InsertDotted(parts: seq<Key>, v: Tree) returns (r: Result<()>)
      requires Valid() && parts != [] && IsValue(v)
      modifies this`heap, this`up
      ensures KeyDone(old(heap), old(up), path, cur, parts, v, heap, up, r)
    {
      hide Insert, ToTree, OnlyCurrent, KeyDone, IsValue;
      var t, i := cur, 0;
      KeyLoopStart(heap, up, path, cur, parts, v);
      while i + 1 < |parts|
        invariant 0 <= t && 0 <= i && KeyLoop(old(heap), old(up), path, cur, parts, v, i, heap, up, t)
      {
        ghost var h, u := heap, up;
        var e := LinkOf(heap[t].links, parts[i]);
        if e == |heap[t].links| {
          var child := Link(t, parts[i], TableCell(Dotted, []));
          KeyLoopNew(old(heap), old(up), path, cur, parts, v, i, h, u, t, heap, up);
          t := child;
        } else {
          KeyLoopOld(old(heap), old(up), path, cur, parts, v, i, heap, up, t);
          var x := heap[t].links[e].node;
          if !heap[x].TableCell? && !(heap[x].ValueCell? && heap[x].value.Table?) {
            return Err(NotATable);
          }
          if heap[x].ValueCell? || heap[x].flag.Inline? {
            return Err(ExtendsInline);
          }
          if heap[x].flag.Implicit? || heap[x].flag.Explicit? {
            return Err(ExtendsHeader);
          }
          t := x;
        }
        i := i + 1;
      }
      ghost var h, u := heap, up;
      if LinkOf(heap[t].links, parts[i]) < |heap[t].links| {
        r := Err(DuplicateKey);
      } else {
        var child := Link(t, parts[i], ValueCell(v));
        r := Ok(());
      }
      KeyLoopEnd(old(heap), old(up), path, cur, parts, v, i, h, u, t, heap, up);
    }

    /** The fused path for a header spelled `[bare.bare]`: false means that the
        general path must take the line, with the document as it was. */
    method TryHeaderFast(parts: seq<Key>) returns (taken: bool, r: Result<nat>)
      requires Valid() && 0 < |parts| <= 8
      modifies this`heap, this`up
      ensures taken ==> HeaderDone(old(heap), old(up), parts, false, heap, up, r)
      ensures !taken ==> heap == old(heap) && up == old(up)
    {
      hide Define, Doc, HeaderDone;
      var t, i := 0, 0;
      while i + 1 < |parts|
        invariant 0 <= t && 0 <= i && HeaderLoop(old(heap), old(up), parts, false, i, heap, up, t)
      {
        ghost var h, u := heap, up;
        var e := LinkOf(heap[t].links, parts[i]);
        if e == |heap[t].links| {
          var child := Link(t, parts[i], TableCell(Implicit, []));
          HeaderLoopNew(old(heap), old(up), parts, false, i, h, u, t, heap, up);
          t := child;
        } else {
          HeaderLoopOld(old(heap), old(up), parts, false, i, heap, up, t);
          var v := heap[t].links[e].node;
          var next := StepInto(heap, v);
          if next.Err? {
            return true, Err(next.error);
          }
          t := next.value;
        }
        i := i + 1;
      }
      if LinkOf(heap[t].links, parts[i]) < |heap[t].links| {
        return false, Err(DefinedTwice);
      }
      ghost var h, u := heap, up;
      var child := Link(t, parts[i], TableCell(Explicit, []));
      LastNew(h, u, heap, up, parts[..i], t, parts[i]);
      taken, r := true, Ok(child);
      HeaderLoopEnd(old(heap), old(up), parts, false, i, h, u, t, heap, up, r);
    }

    /** The fused path for a bare key: one probe, and an insert at the slot that
        the probe stopped at. */
    method InsertBare(k: Key, v: Tree) returns (r: Result<()>)
      requires Valid() && IsValue(v)
      modifies this`heap, this`up
      ensures KeyDone(old(heap), old(up), path, cur, [k], v, heap, up, r)
    {
      hide Insert, ToTree, OnlyCurrent, KeyDone, IsValue;
      KeyLoopStart(heap, up, path, cur, [k], v);
      ghost var h, u := heap, up;
      if LinkOf(heap[cur].links, k) < |heap[cur].links| {
        r := Err(DuplicateKey);
      } else {
        var child := Link(cur, k, ValueCell(v));
        r := Ok(());
      }
      KeyLoopEnd(h, u, path, cur, [k], v, 0, h, u, cur, heap, up);
    }

    /** One header line; `plain` says that it is spelled `[bare.bare]`, so that
        the fused path is tried first.  The spelling makes no difference. */
    method HeaderLine(parts: seq<Key>, aot: bool, plain: bool) returns (r: Result<()>)
      requires Valid() && parts != [] && (plain ==> !aot && |parts| <= 8)
      modifies this
      ensures Valid()
      ensures match Define(old(Abs()).root, parts, aot)
              case Ok(root) => r == Ok(()) && Abs() == State(root, parts)
              case Err(e) => r == Err(e) && Abs() == old(Abs())
    {
      var taken, target := false, Err(DefinedTwice);
      if plain {
        taken, target := TryHeaderFast(parts);
      }
      if !taken {
        target := ResolveHeader(parts, aot);
      }
      match target {
        case Ok(t) =>
          cur := t;
          path := parts;
          r := Ok(());
        case Err(e) =>
          r := Err(e);
      }
    }

    /** One `parts = v` line; `plain` says that the key is one bare part, so that
        the fused path takes it. */
    method KeyLine(parts: seq<Key>, v: Tree, plain: bool) returns (r: Result<()>)
      requires Valid() && parts != [] && IsValue(v) && (plain ==> |parts| == 1)
      modifies this
      ensures Valid() && Leads(old(Abs()).root, old(path))
      ensures match Insert(Get(old(Abs()).root, old(path)), parts, v)
              case Ok(t) => r == Ok(()) && Abs() == State(Put(old(Abs()).root, old(path), t), old(path))
              case Err(e) => r == Err(e) && Abs() == old(Abs())
    {
      FollowsTree(heap, 0, path, cur);
      if plain {
        assert parts == [parts[0]];
        r := InsertBare(parts[0], v);
      } else {
        r := InsertDotted(parts, v);
      }
    }

    /** One line. */
    method Line(stmt: Stmt, plain: bool) returns (r: Result<()>)
      requires Valid() && Ready(Abs()) && Proper(stmt)
      requires plain ==> MayBePlain(stmt)
      modifies this
      ensures Valid() && Ready(Abs())
      ensures match Step(old(Abs()), stmt)
              case Ok(st) => r == Ok(()) && Abs() == st
              case Err(e) => r == Err(e)
    {
      match stmt {
        case Header(p) => r := HeaderLine(p, false, plain);
        case AotHeader(p) => r := HeaderLine(p, true, false);
        case KeyVal(p, v) => r := KeyLine(p, v, plain);
      }
      ReadyNow();
    }

    /** The statement loop: runs the lines in order up to the first that is
        rejected.  `plain` tells which lines the fused paths may take. */
    method Run(stmts: seq<Stmt>, plain: set<nat>) returns (r: Result<()>)
      requires Valid() && Ready(Abs()) && AllProper(stmts)
      requires forall i | i in plain && i < |stmts| :: MayBePlain(stmts[i])
      modifies this
      ensures Valid()
      ensures match Statements.Run(old(Abs()), stmts)
              case Ok(st) => r == Ok(()) && Abs() == st
              case Err(e) => r == Err(e)
    {
      var i := 0;
      while i < |stmts|
        invariant 0 <= i <= |stmts| && Valid() && Ready(Abs())
        invariant Statements.Run(Abs(), stmts[i..]) == Statements.Run(old(Abs()), stmts)
      {
        ghost var rest := stmts[i..];
        assert rest[1..] == stmts[i + 1..] && rest[0] == stmts[i];
        assert Proper(stmts[i]) by { assert stmts[i] in stmts; }
        var done := Line(stmts[i], i in plain);
        if done.Err? {
          return Err(done.error);
        }
        i := i + 1;
      }
      r := Ok(());
    }

    lemma ReadyNow()
      requires Valid()
      ensures Ready(Abs())
    {
      FollowsTree(heap, 0, path, cur);
      assert ParserCell(heap, 0) && ParserCell(heap, cur);
      ToTreeFlag(heap, 0);
      ToTreeFlag(heap, cur);
    }
  }
}
