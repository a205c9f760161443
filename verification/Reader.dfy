/** Reading a document: the value parser and the line loop, moving one cursor
    over the text and running each line as soon as it is read. */
module Reader {
  import opened Document
  import opened Statements
  import opened Tokens
  import Parser

  datatype Ending = Finished | Stopped(failure: Failure)

  /** An opening bracket starts an array, one bracket deeper. */
  lemma {:induction false} OpensArray(toks: seq<Tok>, p: nat, depth: nat, max: nat)
    requires p < |toks| && toks[p] == OpenBracket
    ensures ParseValue(toks, p, depth, max)
         == if depth + 1 > max then Fail(Depth) else ArrayFrom(toks, p + 1, [], depth + 1, max)
  {
  }

  lemma {:induction false} OpensTable(toks: seq<Tok>, p: nat, depth: nat, max: nat)
    requires p < |toks| && toks[p] == OpenBrace
    ensures ParseValue(toks, p, depth, max)
         == if depth + 1 > max then Fail(Depth) else TableFrom(toks, p + 1, Table(Inline, []), depth + 1, max)
  {
  }

  /** One turn of the array loop. */
  lemma {:induction false} ArrayTurn(toks: seq<Tok>, p: nat, items: seq<Tree>, depth: nat, max: nat)
    requires p <= |toks|
    ensures ArrayFrom(toks, p, items, depth, max) ==
              var q := SkipGap(toks, p);
              if q == |toks| then Fail(Syntax)
              else if toks[q] == CloseBracket then Done(Array(false, items), q + 1)
              else match ParseValue(toks, q, depth, max)
                case Fail(f) => Fail(f)
                case Done(v, next) =>
                  var n := SkipGap(toks, next);
                  if n < |toks| && toks[n] == Comma then ArrayFrom(toks, n + 1, items + [v], depth, max)
                  else if n < |toks| && toks[n] == CloseBracket then Done(Array(false, items + [v]), n + 1)
                  else Fail(Syntax)
  {
    hide ParseValue, SkipGap;
  }

  /** One turn of the inline-table loop. */
  lemma {:induction false} TableTurn(toks: seq<Tok>, p: nat, t: Tree, depth: nat, max: nat)
    requires p <= |toks| && t.Table?
    ensures TableFrom(toks, p, t, depth, max) ==
              var q := SkipGap(toks, p);
              if q == |toks| then Fail(Syntax)
              else if toks[q] == CloseBrace then Done(t, q + 1)
              else match MemberAt(toks, q, t, depth, max)
                case Fail(f) => Fail(f)
                case Done(t', next) =>
                  var n := SkipGap(toks, next);
                  if n < |toks| && toks[n] == Comma then TableFrom(toks, n + 1, t', depth, max)
                  else if n < |toks| && toks[n] == CloseBrace then Done(t', n + 1)
                  else Fail(Syntax)
  {
    hide MemberAt, SkipGap;
  }

  class Reader {
    const toks: seq<Tok>
    const max: nat
    var p: nat
    var depth: nat

    constructor (toks: seq<Tok>, max: nat)
      ensures this.toks == toks && this.max == max && p == 0 && depth == 0
    {
      this.toks := toks;
      this.max := max;
      p, depth := 0, 0;
    }

    method SkipGap()
      requires p <= |toks|
      modifies this`p
      ensures p == Tokens.SkipGap(toks, old(p))
    {
      while p < |toks| && toks[p] == Newline
        invariant old(p) <= p <= |toks|
        invariant Tokens.SkipGap(toks, p) == Tokens.SkipGap(toks, old(p))
      {
        p := p + 1;
      }
    }

    method ParseValue() returns (r: Parsed)
      requires p <= |toks|
      modifies this
      ensures r == Tokens.ParseValue(toks, old(p), old(depth), max)
      ensures r.Done? ==> p == r.next && depth == old(depth)
      decreases |toks| - p, 1
    {
      if p == |toks| {
        return Fail(Syntax);
      }
      match toks[p] {
        case ScalarTok(s) =>
          p := p + 1;
          r := Done(Leaf(s), p);
        case OpenBracket => r := ParseArray();
        case OpenBrace => r := ParseInline();
        case _ => r := Fail(Syntax);
      }
    }

    method ParseArray() returns (r: Parsed)
      requires p < |toks| && toks[p] == OpenBracket
      modifies this
      ensures r == Tokens.ParseValue(toks, old(p), old(depth), max)
      ensures r.Done? ==> p == r.next && depth == old(depth)
      decreases |toks| - p, 0
    {
      hide Tokens.ParseValue, ArrayFrom, Tokens.SkipGap;
      OpensArray(toks, p, depth, max);
      p := p + 1;
      depth := depth + 1;
      if depth > max {
        return Fail(Depth);
      }
      var items := [];
      while true
        invariant old(p) < p <= |toks| && depth == old(depth) + 1 <= max
        invariant ArrayFrom(toks, p, items, depth, max) == Tokens.ParseValue(toks, old(p), old(depth), max)
        decreases |toks| - p
      {
        ArrayTurn(toks, p, items, depth, max);
        SkipGap();
        if p == |toks| {
          return Fail(Syntax);
        }
        if toks[p] == CloseBracket {
          p := p + 1;
          break;
        }
        var v := ParseValue();
        if v.Fail? {
          return v;
        }
        items := items + [v.value];
        SkipGap();
        if p < |toks| && toks[p] == Comma {
          p := p + 1;
          continue;
        }
        if p < |toks| && toks[p] == CloseBracket {
          p := p + 1;
          break;
        }
        return Fail(Syntax);
      }
      depth := depth - 1;
      r := Done(Array(false, items), p);
    }

    method ParseInline() returns (r: Parsed)
      requires p < |toks| && toks[p] == OpenBrace
      modifies this
      ensures r == Tokens.ParseValue(toks, old(p), old(depth), max)
      ensures r.Done? ==> p == r.next && depth == old(depth)
      decreases |toks| - p, 0
    {
      hide Tokens.ParseValue, TableFrom, MemberAt, Tokens.SkipGap;
      OpensTable(toks, p, depth, max);
      p := p + 1;
      depth := depth + 1;
      if depth > max {
        return Fail(Depth);
      }
      var t := Table(Inline, []);
      while true
        invariant old(p) < p <= |toks| && depth == old(depth) + 1 <= max && t.Table?
        invariant TableFrom(toks, p, t, depth, max) == Tokens.ParseValue(toks, old(p), old(depth), max)
        decreases |toks| - p
      {
        TableTurn(toks, p, t, depth, max);
        SkipGap();
        if p == |toks| {
          return Fail(Syntax);
        }
        if toks[p] == CloseBrace {
          p := p + 1;
          break;
        }
        var m := ParseMember(t);
        if m.Fail? {
          return m;
        }
        t := m.value;
        SkipGap();
        if p < |toks| && toks[p] == Comma {
          p := p + 1;
          continue;
        }
        if p < |toks| && toks[p] == CloseBrace {
          p := p + 1;
          break;
        }
        return Fail(Syntax);
      }
      depth := depth - 1;
      r := Done(t, p);
    }

    /** One `key = value` of the inline table `t`. */
    method ParseMember(t: Tree) returns (r: Parsed)
      requires p < |toks| && t.Table?
      modifies this
      ensures r == MemberAt(toks, old(p), t, old(depth), max)
      ensures r.Done? ==> p == r.next && depth == old(depth)
      decreases |toks| - p, 0
    {
      if !toks[p].KeyTok? || toks[p].path == [] {
        return Fail(Syntax);
      }
      var path := toks[p].path;
      if |path| > max {
        return Fail(Depth);
      }
      p := p + 1;
      if p == |toks| || toks[p] != Equals {
        return Fail(Syntax);
      }
      p := p + 1;
      var v := ParseValue();
      if v.Fail? {
        return v;
      }
      match Insert(t, path, v.value) {
        case Ok(t') => r := Done(t', v.next);
        case Err(e) => r := Fail(Semantic(e));
      }
    }

    method Line() returns (r: Read)
      requires p < |toks| && depth == 0
      modifies this
      ensures r == ReadLine(toks, old(p), max)
      ensures r.Got? ==> p == r.next && depth == 0
    {
      match toks[p] {
        case HeaderTok(path) => r := ReadHeader(toks, p, path, Header(path), max);
        case AotTok(path) => r := ReadHeader(toks, p, path, AotHeader(path), max);
        case KeyTok(path) =>
          if path == [] {
            return Bad(Syntax);
          }
          if |path| > max {
            return Bad(Depth);
          }
          if p + 1 == |toks| || toks[p + 1] != Equals {
            return Bad(Syntax);
          }
          p := p + 2;
          var v := ParseValue();
          if v.Fail? {
            return Bad(v.failure);
          }
          return Got(KeyVal(path, v.value), v.next);
        case _ => r := Bad(Syntax);
      }
      p := p + 1;
    }

    /** Reads and runs the whole text; `doc` starts out empty. */
    method Run(doc: Parser.Parser) returns (r: Ending)
      requires p == 0 && depth == 0 && doc.Valid() && doc.Abs() == InitialState
      modifies this, doc
      ensures doc.Valid() && Ready(InitialState)
      ensures match RunText(InitialState, toks, 0, max)
              case Accepted(root) => r == Finished && doc.Abs().root == root
              case Rejected(f) => r == Stopped(f)
    {
      doc.ReadyNow();
      while true
        invariant p <= |toks| && depth == 0 && doc.Valid() && Ready(doc.Abs())
        invariant RunText(doc.Abs(), toks, p, max) == RunText(InitialState, toks, 0, max)
        decreases |toks| - p
      {
        SkipGap();
        if p == |toks| {
          break;
        }
        ReadIsProper'(p);
        var line := Line();
        if line.Bad? {
          return Stopped(line.failure);
        }
        var done := doc.Line(line.stmt, Parser.MayBePlain(line.stmt));
        if done.Err? {
          return Stopped(Semantic(done.error));
        }
        if p < |toks| && toks[p] != Newline {
          return Stopped(Syntax);
        }
      }
      r := Finished;
    }

    lemma ReadIsProper'(q: nat)
      requires q < |toks|
      ensures ReadLine(toks, q, max).Got? ==> Proper(ReadLine(toks, q, max).stmt)
    {
      if ReadLine(toks, q, max).Got? {
        ReadIsProper(toks, q, max);
      }
    }
  }
}
