/** The text of a document as tokens: scalars, key paths and headers are one
    token each; brackets, braces, commas, equals signs and line ends are the
    rest.  Both the emitted form and the reading of it are given here. */
module Tokens {
  import opened Sequences
  import opened Document
  import opened Places
  import opened Statements
  import opened Content
  import opened RoundTrip

  datatype Tok =
    | HeaderTok(path: seq<Key>)   // [path]
    | AotTok(path: seq<Key>)      // [[path]]
    | KeyTok(path: seq<Key>)
    | Equals
    | ScalarTok(scalar: Scalar)
    | OpenBracket | CloseBracket
    | OpenBrace | CloseBrace
    | Comma
    | Newline

  // --------------------------------------------------------------- writing

  function ValueText(v: Tree): seq<Tok>
    decreases v
  {
    match v
    case Leaf(s) => [ScalarTok(s)]
    case Array(_, items) => [OpenBracket] + ItemsText(items) + [CloseBracket]
    case Table(_, es) => [OpenBrace] + MembersText(es) + [CloseBrace]
  }

  /** The items of an array with a comma before each but the first. */
  function ItemsText(items: seq<Tree>): seq<Tok>
    decreases items
  {
    if items == [] then [] else ValueText(items[0]) + MoreItemsText(items[1..])
  }

  function MoreItemsText(items: seq<Tree>): seq<Tok>
    decreases items
  {
    if items == [] then [] else [Comma] + ValueText(items[0]) + MoreItemsText(items[1..])
  }

  function MemberText(e: Entry): seq<Tok>
    decreases e
  {
    [KeyTok([e.key]), Equals] + ValueText(e.value)
  }

  function MembersText(es: seq<Entry>): seq<Tok>
    decreases es
  {
    if es == [] then [] else MemberText(es[0]) + MoreMembersText(es[1..])
  }

  function MoreMembersText(es: seq<Entry>): seq<Tok>
    decreases es
  {
    if es == [] then [] else [Comma] + MemberText(es[0]) + MoreMembersText(es[1..])
  }

  function LineText(s: Stmt): seq<Tok> {
    match s
    case Header(p) => [HeaderTok(p), Newline]
    case AotHeader(p) => [AotTok(p), Newline]
    case KeyVal(p, v) => [KeyTok(p), Equals] + ValueText(v) + [Newline]
  }

  function Text(stmts: seq<Stmt>): seq<Tok> {
    if stmts == [] then [] else LineText(stmts[0]) + Text(stmts[1..])
  }

  // --------------------------------------------------------------- reading

  datatype Failure = Syntax | Depth | Semantic(error: Error)

  datatype Parsed = Done(value: Tree, next: nat) | Fail(failure: Failure)

  /** The next token that is not a line end. */
  function SkipGap(toks: seq<Tok>, p: nat): (q: nat)
    requires p <= |toks|
    ensures p <= q <= |toks|
    ensures q < |toks| ==> toks[q] != Newline
    ensures forall i :: p <= i < q ==> toks[i] == Newline
    decreases |toks| - p
  {
    if p < |toks| && toks[p] == Newline then SkipGap(toks, p + 1) else p
  }

  /** One value at position `p`, below `depth` open brackets. */
  function ParseValue(toks: seq<Tok>, p: nat, depth: nat, max: nat): (r: Parsed)
    requires p <= |toks|
    ensures r.Done? ==> p < r.next <= |toks|
    decreases |toks| - p, 1
  {
    if p == |toks| then Fail(Syntax)
    else match toks[p]
      case ScalarTok(s) => Done(Leaf(s), p + 1)
      case OpenBracket => if depth + 1 > max then Fail(Depth) else ArrayFrom(toks, p + 1, [], depth + 1, max)
      case OpenBrace =>
        if depth + 1 > max then Fail(Depth) else TableFrom(toks, p + 1, Table(Inline, []), depth + 1, max)
      case _ => Fail(Syntax)
  }

  /** The rest of an array that has `items` so far. */
  function ArrayFrom(toks: seq<Tok>, p: nat, items: seq<Tree>, depth: nat, max: nat): (r: Parsed)
    requires p <= |toks|
    ensures r.Done? ==> p < r.next <= |toks|
    decreases |toks| - p, 2
  {
    var q := SkipGap(toks, p);
    if q == |toks| then Fail(Syntax)
    else if toks[q] == CloseBracket then Done(Array(false, items), q + 1)
    else
      match ParseValue(toks, q, depth, max)
      case Fail(f) => Fail(f)
      case Done(v, next) =>
        var n := SkipGap(toks, next);
        if n < |toks| && toks[n] == Comma then ArrayFrom(toks, n + 1, items + [v], depth, max)
        else if n < |toks| && toks[n] == CloseBracket then Done(Array(false, items + [v]), n + 1)
        else Fail(Syntax)
  }

  /** The rest of an inline table that is `t` so far. */
  function TableFrom(toks: seq<Tok>, p: nat, t: Tree, depth: nat, max: nat): (r: Parsed)
    requires p <= |toks| && t.Table?
    ensures r.Done? ==> p < r.next <= |toks|
    decreases |toks| - p, 2
  {
    var q := SkipGap(toks, p);
    if q == |toks| then Fail(Syntax)
    else if toks[q] == CloseBrace then Done(t, q + 1)
    else
      match MemberAt(toks, q, t, depth, max)
      case Fail(f) => Fail(f)
      case Done(t', next) =>
        var n := SkipGap(toks, next);
        if n < |toks| && toks[n] == Comma then TableFrom(toks, n + 1, t', depth, max)
        else if n < |toks| && toks[n] == CloseBrace then Done(t', n + 1)
        else Fail(Syntax)
  }

  /** The table `t` with the `key = value` at `p` inserted. */
  function MemberAt(toks: seq<Tok>, p: nat, t: Tree, depth: nat, max: nat): (r: Parsed)
    requires p < |toks| && t.Table?
    ensures r.Done? ==> p < r.next <= |toks| && r.value.Table?
    decreases |toks| - p, 1
  {
    if !(toks[p].KeyTok? && toks[p].path != []) then Fail(Syntax)
    else if |toks[p].path| > max then Fail(Depth)
    else if !(p + 1 < |toks| && toks[p + 1] == Equals) then Fail(Syntax)
    else
      match ParseValue(toks, p + 2, depth, max)
      case Fail(f) => Fail(f)
      case Done(v, next) =>
        match Insert(t, toks[p].path, v)
        case Ok(t') => Done(t', next)
        case Err(e) => Fail(Semantic(e))
  }

  datatype Read = Got(stmt: Stmt, next: nat) | Bad(failure: Failure)

  /** The line at `p`, up to its line end. */
  function ReadLine(toks: seq<Tok>, p: nat, max: nat): (r: Read)
    requires p < |toks|
    ensures r.Got? ==> p < r.next <= |toks| && r.stmt.path != []
  {
    match toks[p]
    case HeaderTok(path) => ReadHeader(toks, p, path, Header(path), max)
    case AotTok(path) => ReadHeader(toks, p, path, AotHeader(path), max)
    case KeyTok(path) =>
      if path == [] then Bad(Syntax)
      else if |path| > max then Bad(Depth)
      else if !(p + 1 < |toks| && toks[p + 1] == Equals) then Bad(Syntax)
      else (match ParseValue(toks, p + 2, 0, max)
            case Fail(f) => Bad(f)
            case Done(v, next) => Got(KeyVal(path, v), next))
    case _ => Bad(Syntax)
  }

  function ReadHeader(toks: seq<Tok>, p: nat, path: seq<Key>, s: Stmt, max: nat): (r: Read)
    requires p < |toks| && s.path == path
    ensures r.Got? ==> r == Got(s, p + 1) && path != []
  {
    if path == [] then Bad(Syntax) else if |path| > max then Bad(Depth) else Got(s, p + 1)
  }

  // ------------------------------------------------------- values are values

  lemma {:induction false} InsertInner(t: Tree, path: seq<Key>, v: Tree)
    requires t.Table? && IsInner(t) && path != [] && IsInner(v) && (v.Table? ==> v.flag.Inline?)
    requires Insert(t, path, v).Ok?
    ensures IsInner(Insert(t, path, v).value) && Insert(t, path, v).value.flag == t.flag
    decreases |path|
  {
    var r := Insert(t, path, v).value;
    var i := IndexOf(t.entries, path[0]);
    if i == |t.entries| {
      if |path| > 1 {
        InsertInner(Table(Dotted, []), path[1..], v);
      }
    } else {
      assert t.entries[i] in t.entries;
      InsertInner(t.entries[i].value, path[1..], v);
    }
    forall e | e in r.entries ensures IsInner(e.value) {
      assert e in t.entries || e == r.entries[i];
    }
  }

  /** What is read as a value is a value: everything in it renders inline, and
      sibling keys differ. */
  lemma {:induction false} ParsedIsValue(toks: seq<Tok>, p: nat, depth: nat, max: nat)
    requires p <= |toks| && ParseValue(toks, p, depth, max).Done?
    ensures IsValue(ParseValue(toks, p, depth, max).value)
    decreases |toks| - p, 1
  {
    match toks[p]
    case OpenBracket => ParsedArray(toks, p + 1, [], depth + 1, max);
    case OpenBrace => ParsedTable(toks, p + 1, Table(Inline, []), depth + 1, max);
    case _ =>
  }

  lemma {:induction false} ParsedArray(toks: seq<Tok>, p: nat, items: seq<Tree>, depth: nat, max: nat)
    requires p <= |toks| && ArrayFrom(toks, p, items, depth, max).Done?
    requires forall x | x in items :: IsInner(x)
    ensures IsValue(ArrayFrom(toks, p, items, depth, max).value)
    decreases |toks| - p, 2
  {
    var q := SkipGap(toks, p);
    if toks[q] != CloseBracket {
      ParsedIsValue(toks, q, depth, max);
      var r := ParseValue(toks, q, depth, max);
      var n := SkipGap(toks, r.next);
      if toks[n] == Comma {
        ParsedArray(toks, n + 1, items + [r.value], depth, max);
      }
    }
  }

  lemma {:induction false} ParsedTable(toks: seq<Tok>, p: nat, t: Tree, depth: nat, max: nat)
    requires p <= |toks| && t.Table? && IsValue(t) && TableFrom(toks, p, t, depth, max).Done?
    ensures IsValue(TableFrom(toks, p, t, depth, max).value)
    decreases |toks| - p, 2
  {
    var q := SkipGap(toks, p);
    if toks[q] != CloseBrace {
      ParsedIsValue(toks, q + 2, depth, max);
      var v := ParseValue(toks, q + 2, depth, max).value;
      InsertInner(t, toks[q].path, v);
      var r := MemberAt(toks, q, t, depth, max);
      var n := SkipGap(toks, r.next);
      if toks[n] == Comma {
        ParsedTable(toks, n + 1, r.value, depth, max);
      }
    }
  }

  /** Every line that is read is a statement the document accepts as input. */
  lemma {:induction false} ReadIsProper(toks: seq<Tok>, p: nat, max: nat)
    requires p < |toks| && ReadLine(toks, p, max).Got?
    ensures Proper(ReadLine(toks, p, max).stmt)
  {
    if toks[p].KeyTok? {
      ParsedIsValue(toks, p + 2, 0, max);
    }
  }

  // ------------------------------------------------------- reading back

  /** How deep the brackets of a value nest. */
  function Nesting(v: Tree): nat
    decreases v
  {
    match v
    case Leaf(_) => 0
    case Array(_, items) => 1 + ItemsNesting(items)
    case Table(_, es) => 1 + MembersNesting(es)
  }

  function ItemsNesting(items: seq<Tree>): nat
    decreases items
  {
    if items == [] then 0
    else var a, b := Nesting(items[0]), ItemsNesting(items[1..]); if a < b then b else a
  }

  function MembersNesting(es: seq<Entry>): nat
    decreases es
  {
    if es == [] then 0
    else var a, b := Nesting(es[0].value), MembersNesting(es[1..]); if a < b then b else a
  }

  /** `toks` reads `text` at `p`. */
  ghost predicate Has(toks: seq<Tok>, p: nat, text: seq<Tok>) {
    p + |text| <= |toks| && toks[p..p + |text|] == text
  }

  lemma {:induction false} HasConcat(toks: seq<Tok>, p: nat, a: seq<Tok>, b: seq<Tok>)
    requires Has(toks, p, a + b)
    ensures Has(toks, p, a) && Has(toks, p + |a|, b)
  {
    assert toks[p..p + |a|] == (a + b)[..|a|];
    assert toks[p + |a|..p + |a| + |b|] == (a + b)[|a|..];
  }

  lemma {:induction false} HasHead(toks: seq<Tok>, p: nat, text: seq<Tok>)
    requires Has(toks, p, text) && text != []
    ensures p < |toks| && toks[p] == text[0]
  {
    assert toks[p..p + |text|][0] == text[0];
  }

  lemma {:induction false} HasBracketed(toks: seq<Tok>, p: nat, left: Tok, mid: seq<Tok>, right: Tok)
    requires Has(toks, p, [left] + mid + [right])
    ensures p < |toks| && toks[p] == left && Has(toks, p + 1, mid + [right])
  {
    assert [left] + mid + [right] == [left] + (mid + [right]);
    HasConcat(toks, p, [left], mid + [right]);
    HasHead(toks, p, [left]);
  }

  lemma {:induction false} ValueTextStarts(v: Tree)
    ensures ValueText(v) != []
    ensures var t := ValueText(v)[0]; t != Newline && t != CloseBracket && t != CloseBrace && t != Comma
  {
  }

  ghost predicate AllInner(items: seq<Tree>) {
    forall x | x in items :: IsInner(x)
  }

  ghost predicate AllInnerEntries(es: seq<Entry>) {
    forall e | e in es :: IsInner(e.value)
  }

  lemma {:induction false} AllInnerFirst(items: seq<Tree>)
    requires AllInner(items) && items != []
    ensures IsInner(items[0]) && AllInner(items[1..])
    ensures Nesting(items[0]) <= ItemsNesting(items) && ItemsNesting(items[1..]) <= ItemsNesting(items)
  {
    assert items[0] in items;
  }

  lemma {:induction false} AllInnerEntriesFirst(es: seq<Entry>)
    requires AllInnerEntries(es) && es != []
    ensures IsInner(es[0].value) && AllInnerEntries(es[1..])
    ensures Nesting(es[0].value) <= MembersNesting(es) && MembersNesting(es[1..]) <= MembersNesting(es)
  {
    assert es[0] in es;
  }

  /** A value read where its text is gives the value back. */
  lemma {:induction false} ReadValue(toks: seq<Tok>, p: nat, v: Tree, depth: nat, max: nat)
    requires IsInner(v) && Has(toks, p, ValueText(v)) && depth + Nesting(v) <= max
    ensures ParseValue(toks, p, depth, max) == Done(Inlined(v), p + |ValueText(v)|)
    decreases v, 1
  {
    match v
    case Leaf(_) => HasHead(toks, p, ValueText(v));
    case Array(_, items) => ReadArray(toks, p, items, depth, max);
    case Table(_, es) => ReadTable(toks, p, es, depth, max);
  }

  lemma {:induction false} ReadArray(toks: seq<Tok>, p: nat, items: seq<Tree>, depth: nat, max: nat)
    requires Has(toks, p, [OpenBracket] + ItemsText(items) + [CloseBracket])
    requires AllInner(items) && depth + 1 + ItemsNesting(items) <= max
    ensures ParseValue(toks, p, depth, max) == Done(Array(false, InlinedItems(items)), p + |ItemsText(items)| + 2)
    decreases items, 2
  {
    HasBracketed(toks, p, OpenBracket, ItemsText(items), CloseBracket);
    ReadItems(toks, p + 1, items, depth + 1, max);
  }

  lemma {:induction false} ReadTable(toks: seq<Tok>, p: nat, es: seq<Entry>, depth: nat, max: nat)
    requires Has(toks, p, [OpenBrace] + MembersText(es) + [CloseBrace])
    requires DistinctKeys(es) && AllInnerEntries(es) && depth + 1 + MembersNesting(es) <= max
    ensures ParseValue(toks, p, depth, max) == Done(Table(Inline, InlinedEntries(es)), p + |MembersText(es)| + 2)
    decreases es, 2
  {
    HasBracketed(toks, p, OpenBrace, MembersText(es), CloseBrace);
    ReadMembers(toks, p + 1, es, depth + 1, max);
  }

  lemma {:induction false} ReadItems(toks: seq<Tok>, p: nat, items: seq<Tree>, depth: nat, max: nat)
    requires Has(toks, p, ItemsText(items) + [CloseBracket])
    requires AllInner(items) && depth + ItemsNesting(items) <= max
    ensures ArrayFrom(toks, p, [], depth, max) == Done(Array(false, InlinedItems(items)), p + |ItemsText(items)| + 1)
    decreases items, 1
  {
    if items == [] {
      HasHead(toks, p, ItemsText(items) + [CloseBracket]);
    } else {
      assert ItemsText(items) + [CloseBracket] == ValueText(items[0]) + (MoreItemsText(items[1..]) + [CloseBracket]);
      HasConcat(toks, p, ValueText(items[0]), MoreItemsText(items[1..]) + [CloseBracket]);
      ReadItem(toks, p, items, [], depth, max, InlinedItems(items), p + |ItemsText(items)| + 1);
    }
  }

  /** What follows an item decides whether the array goes on. */
  lemma {:induction false} ArrayStep(toks: seq<Tok>, p: nat, done: seq<Tree>, v: Tree, n: nat, depth: nat, max: nat)
    requires p < |toks| && toks[p] != Newline && toks[p] != CloseBracket
    requires ParseValue(toks, p, depth, max) == Done(v, n)
    requires n < |toks| && (toks[n] == Comma || toks[n] == CloseBracket)
    ensures ArrayFrom(toks, p, done, depth, max)
         == if toks[n] == Comma then ArrayFrom(toks, n + 1, done + [v], depth, max)
            else Done(Array(false, done + [v]), n + 1)
  {
    hide ParseValue;
  }

  lemma {:induction false} ValueTextAt(toks: seq<Tok>, p: nat, v: Tree)
    requires Has(toks, p, ValueText(v))
    ensures p < |toks| && toks[p] != Newline && toks[p] != CloseBracket
  {
    ValueTextStarts(v);
    HasHead(toks, p, ValueText(v));
  }

  lemma {:induction false} ItemStep(toks: seq<Tok>, p: nat, v: Tree, done: seq<Tree>, depth: nat, max: nat)
    requires Has(toks, p, ValueText(v)) && IsInner(v) && depth + Nesting(v) <= max
    requires var n := p + |ValueText(v)|; n < |toks| && (toks[n] == Comma || toks[n] == CloseBracket)
    ensures var n := p + |ValueText(v)|;
            ArrayFrom(toks, p, done, depth, max)
            == if toks[n] == Comma then ArrayFrom(toks, n + 1, done + [Inlined(v)], depth, max)
               else Done(Array(false, done + [Inlined(v)]), n + 1)
    decreases v, 2
  {
    hide Has, ValueText, ArrayFrom, ParseValue, IsInner, Nesting, Inlined;
    ValueTextAt(toks, p, v);
    ReadValue(toks, p, v, depth, max);
    ArrayStep(toks, p, done, Inlined(v), p + |ValueText(v)|, depth, max);
  }

  /** A comma comes before another item, a bracket after the last. */
  lemma {:induction false} MoreItemsAt(toks: seq<Tok>, n: nat, rest: seq<Tree>)
    requires Has(toks, n, MoreItemsText(rest) + [CloseBracket])
    ensures n < |toks|
    ensures rest == [] ==> toks[n] == CloseBracket
    ensures rest != [] ==>
              && toks[n] == Comma && Has(toks, n + 1, ValueText(rest[0]))
              && Has(toks, n + 1 + |ValueText(rest[0])|, MoreItemsText(rest[1..]) + [CloseBracket])
  {
    HasHead(toks, n, MoreItemsText(rest) + [CloseBracket]);
    if rest != [] {
      assert MoreItemsText(rest) + [CloseBracket]
          == [Comma] + (ValueText(rest[0]) + (MoreItemsText(rest[1..]) + [CloseBracket]));
      HasConcat(toks, n, [Comma], ValueText(rest[0]) + (MoreItemsText(rest[1..]) + [CloseBracket]));
      HasConcat(toks, n + 1, ValueText(rest[0]), MoreItemsText(rest[1..]) + [CloseBracket]);
    }
  }

  lemma {:induction false} MoreItemsLength(rest: seq<Tree>)
    ensures rest != [] ==> |MoreItemsText(rest)| == 1 + |ValueText(rest[0])| + |MoreItemsText(rest[1..])|
    ensures rest == [] ==> |MoreItemsText(rest)| == 0
  {
  }

  lemma {:induction false} InlinedItemsFirst(items: seq<Tree>, done: seq<Tree>)
    requires items != []
    ensures done + InlinedItems(items) == done + [Inlined(items[0])] + InlinedItems(items[1..])
  {
  }

  /** One item, then the rest of the array, which comes to hold `all` and ends
      at `end`. */
  lemma {:induction false} ReadItem(toks: seq<Tok>, p: nat, items: seq<Tree>, done: seq<Tree>, depth: nat, max: nat,
                                    all: seq<Tree>, end: nat)
    requires items != [] && Has(toks, p, ValueText(items[0]))
    requires Has(toks, p + |ValueText(items[0])|, MoreItemsText(items[1..]) + [CloseBracket])
    requires AllInner(items) && depth + ItemsNesting(items) <= max
    requires all == done + InlinedItems(items)
    requires end == p + |ValueText(items[0])| + |MoreItemsText(items[1..])| + 1
    ensures ArrayFrom(toks, p, done, depth, max) == Done(Array(false, all), end)
    decreases items, 0
  {
    hide Has, ValueText, ArrayFrom;
    var v := Inlined(items[0]);
    var n := p + |ValueText(items[0])|;
    InlinedItemsFirst(items, done);
    MoreItemsLength(items[1..]);
    MoreItemsAt(toks, n, items[1..]);
    AllInnerFirst(items);
    ItemStep(toks, p, items[0], done, depth, max);
    if items[1..] == [] {
      assert InlinedItems(items[1..]) == [] && MoreItemsText(items[1..]) == [];
      assert end == n + 1;
      assert all == done + [v];
      assert toks[n] == CloseBracket;
    } else {
      ReadItem(toks, n + 1, items[1..], done + [v], depth, max, all, end);
    }
  }

  lemma {:induction false} ReadMembers(toks: seq<Tok>, p: nat, es: seq<Entry>, depth: nat, max: nat)
    requires Has(toks, p, MembersText(es) + [CloseBrace])
    requires DistinctKeys(es) && AllInnerEntries(es) && depth + MembersNesting(es) <= max && 0 < max
    ensures TableFrom(toks, p, Table(Inline, []), depth, max)
         == Done(Table(Inline, InlinedEntries(es)), p + |MembersText(es)| + 1)
    decreases es, 1
  {
    if es == [] {
      HasHead(toks, p, MembersText(es) + [CloseBrace]);
    } else {
      assert MembersText(es) + [CloseBrace] == MemberText(es[0]) + (MoreMembersText(es[1..]) + [CloseBrace]);
      HasConcat(toks, p, MemberText(es[0]), MoreMembersText(es[1..]) + [CloseBrace]);
      DistinctInsertable(es, []);
      ReadMember(toks, p, es, [], depth, max, InlinedEntries(es), p + |MembersText(es)| + 1);
    }
  }

  /** What follows a member decides whether the inline table goes on. */
  lemma {:induction false} TableStep(toks: seq<Tok>, p: nat, t: Tree, t': Tree, n: nat, depth: nat, max: nat)
    requires p < |toks| && toks[p].KeyTok? && t.Table?
    requires MemberAt(toks, p, t, depth, max) == Done(t', n)
    requires n < |toks| && (toks[n] == Comma || toks[n] == CloseBrace)
    ensures t'.Table?
    ensures TableFrom(toks, p, t, depth, max)
         == if toks[n] == Comma then TableFrom(toks, n + 1, t', depth, max) else Done(t', n + 1)
  {
  }

  /** A comma comes before another member, a brace after the last. */
  lemma {:induction false} MoreMembersAt(toks: seq<Tok>, n: nat, rest: seq<Entry>)
    requires Has(toks, n, MoreMembersText(rest) + [CloseBrace])
    ensures n < |toks|
    ensures rest == [] ==> toks[n] == CloseBrace
    ensures rest != [] ==>
              && toks[n] == Comma && Has(toks, n + 1, MemberText(rest[0]))
              && Has(toks, n + 1 + |MemberText(rest[0])|, MoreMembersText(rest[1..]) + [CloseBrace])
  {
    HasHead(toks, n, MoreMembersText(rest) + [CloseBrace]);
    if rest != [] {
      assert MoreMembersText(rest) + [CloseBrace]
          == [Comma] + (MemberText(rest[0]) + (MoreMembersText(rest[1..]) + [CloseBrace]));
      HasConcat(toks, n, [Comma], MemberText(rest[0]) + (MoreMembersText(rest[1..]) + [CloseBrace]));
      HasConcat(toks, n + 1, MemberText(rest[0]), MoreMembersText(rest[1..]) + [CloseBrace]);
    }
  }

  lemma {:induction false} MemberStep(toks: seq<Tok>, p: nat, e: Entry, done: seq<Entry>, depth: nat, max: nat)
    requires Has(toks, p, MemberText(e)) && IsInner(e.value) && depth + Nesting(e.value) <= max && 0 < max
    requires IndexOf(done, e.key) == |done|
    requires var n := p + |MemberText(e)|; n < |toks| && (toks[n] == Comma || toks[n] == CloseBrace)
    ensures var n := p + |MemberText(e)|;
            var done' := done + [Entry(e.key, Inlined(e.value))];
            TableFrom(toks, p, Table(Inline, done), depth, max)
            == if toks[n] == Comma then TableFrom(toks, n + 1, Table(Inline, done'), depth, max)
               else Done(Table(Inline, done'), n + 1)
    decreases e, 1
  {
    HasHead(toks, p, MemberText(e));
    MemberRead(toks, p, e, done, depth, max);
    TableStep(toks, p, Table(Inline, done), Table(Inline, done + [Entry(e.key, Inlined(e.value))]),
              p + |MemberText(e)|, depth, max);
  }

  /** The members `es` can be inserted after `done` one by one. */
  ghost predicate Insertable(es: seq<Entry>, done: seq<Entry>)
    decreases |es|
  {
    es == [] ||
    (IndexOf(done, es[0].key) == |done| && Insertable(es[1..], done + [Entry(es[0].key, Inlined(es[0].value))]))
  }

  lemma {:induction false} DistinctInsertable(es: seq<Entry>, done: seq<Entry>)
    requires DistinctKeys(es) && NoneIn(es, done)
    ensures Insertable(es, done)
    decreases |es|
  {
    if es != [] {
      var e := Entry(es[0].key, Inlined(es[0].value));
      assert es[0] in es;
      forall x | x in es[1..] ensures IndexOf(done + [e], x.key) == |done + [e]| {
        assert x in es;
        IndexOfAppend(done, e, x.key);
      }
      DistinctInsertable(es[1..], done + [e]);
    }
  }

  lemma {:induction false} MoreMembersLength(rest: seq<Entry>)
    ensures rest != [] ==> |MoreMembersText(rest)| == 1 + |MemberText(rest[0])| + |MoreMembersText(rest[1..])|
    ensures rest == [] ==> |MoreMembersText(rest)| == 0
  {
  }

  lemma {:induction false} InlinedEntriesFirst(es: seq<Entry>, done: seq<Entry>)
    requires es != []
    ensures done + InlinedEntries(es) == done + [Entry(es[0].key, Inlined(es[0].value))] + InlinedEntries(es[1..])
  {
  }

  /** One member, then the rest of the inline table, which comes to hold `all`
      and ends at `end`. */
  lemma {:induction false} ReadMember(toks: seq<Tok>, p: nat, es: seq<Entry>, done: seq<Entry>, depth: nat, max: nat,
                                      all: seq<Entry>, end: nat)
    requires es != [] && Has(toks, p, MemberText(es[0]))
    requires Has(toks, p + |MemberText(es[0])|, MoreMembersText(es[1..]) + [CloseBrace])
    requires Insertable(es, done) && AllInnerEntries(es) && depth + MembersNesting(es) <= max && 0 < max
    requires all == done + InlinedEntries(es) && end == p + |MemberText(es[0])| + |MoreMembersText(es[1..])| + 1
    ensures TableFrom(toks, p, Table(Inline, done), depth, max) == Done(Table(Inline, all), end)
    decreases es, 0
  {
    hide Has, ValueText, TableFrom;
    var e' := Entry(es[0].key, Inlined(es[0].value));
    var n := p + |MemberText(es[0])|;
    InlinedEntriesFirst(es, done);
    MoreMembersLength(es[1..]);
    MoreMembersAt(toks, n, es[1..]);
    AllInnerEntriesFirst(es);
    MemberStep(toks, p, es[0], done, depth, max);
    if es[1..] == [] {
      assert InlinedEntries(es[1..]) == [] && MoreMembersText(es[1..]) == [];
      assert end == n + 1;
      assert all == done + [e'];
      assert toks[n] == CloseBrace;
    } else {
      ReadMember(toks, n + 1, es[1..], done + [e'], depth, max, all, end);
    }
  }

  lemma {:induction false} MemberRead(toks: seq<Tok>, p: nat, e: Entry, done: seq<Entry>, depth: nat, max: nat)
    requires Has(toks, p, MemberText(e)) && IsInner(e.value) && depth + Nesting(e.value) <= max && 0 < max
    requires IndexOf(done, e.key) == |done|
    ensures p < |toks|
    ensures MemberAt(toks, p, Table(Inline, done), depth, max)
         == Done(Table(Inline, done + [Entry(e.key, Inlined(e.value))]), p + |MemberText(e)|)
    decreases e, 0
  {
    HasHead(toks, p, MemberText(e));
    HasConcat(toks, p, [KeyTok([e.key]), Equals], ValueText(e.value));
    assert toks[p..p + 2][1] == toks[p + 1];
    ReadValue(toks, p + 2, e.value, depth, max);
  }

  // --------------------------------------------------------------- documents

  /** A line that can be read back: what the emitter writes within limits. */
  ghost predicate Readable(s: Stmt, max: nat) {
    Proper(s) && |s.path| <= max && (s.KeyVal? ==> Inlined(s.value) == s.value && Nesting(s.value) <= max)
  }

  lemma {:induction false} ReadBack(toks: seq<Tok>, p: nat, s: Stmt, max: nat)
    requires Has(toks, p, LineText(s)) && Readable(s, max)
    ensures p < |toks| && toks[p] != Newline
    ensures ReadLine(toks, p, max) == Got(s, p + |LineText(s)| - 1)
    ensures toks[p + |LineText(s)| - 1] == Newline
  {
    HasHead(toks, p, LineText(s));
    assert toks[p..p + |LineText(s)|][|LineText(s)| - 1] == toks[p + |LineText(s)| - 1];
    if s.KeyVal? {
      assert LineText(s) == [KeyTok(s.path), Equals] + (ValueText(s.value) + [Newline]);
      HasConcat(toks, p, [KeyTok(s.path), Equals], ValueText(s.value) + [Newline]);
      assert toks[p..p + 2][1] == toks[p + 1];
      HasConcat(toks, p + 2, ValueText(s.value), [Newline]);
      ReadValue(toks, p + 2, s.value, 0, max);
    }
  }

  datatype Verdict = Accepted(root: Tree) | Rejected(failure: Failure)

  /** The document that the text from `p` on makes of `st`: lines are read and
      run one by one, and the first failure ends it. */
  ghost function RunText(st: State, toks: seq<Tok>, p: nat, max: nat): Verdict
    requires Ready(st) && p <= |toks|
    decreases |toks| - p
  {
    var q := SkipGap(toks, p);
    if q == |toks| then Accepted(st.root)
    else
      match ReadLine(toks, q, max)
      case Bad(f) => Rejected(f)
      case Got(s, next) =>
        ReadIsProper(toks, q, max);
        match Step(st, s)
        case Err(e) => Rejected(Semantic(e))
        case Ok(st') => if next < |toks| && toks[next] != Newline then Rejected(Syntax)
          else RunText(st', toks, next, max)
  }

  lemma {:induction false} TextAt(toks: seq<Tok>, p: nat, stmts: seq<Stmt>)
    requires Has(toks, p, Text(stmts)) && stmts != []
    ensures Has(toks, p, LineText(stmts[0])) && Has(toks, p + |LineText(stmts[0])|, Text(stmts[1..]))
    ensures |Text(stmts)| == |LineText(stmts[0])| + |Text(stmts[1..])|
  {
    hide LineText, Has;
    HasConcat(toks, p, LineText(stmts[0]), Text(stmts[1..]));
  }

  ghost predicate AllReadable(stmts: seq<Stmt>, max: nat) {
    forall s | s in stmts :: Readable(s, max)
  }

  /** Running the text of some lines is running the lines. */
  lemma {:induction false} RunTextOf(st: State, toks: seq<Tok>, p: nat, stmts: seq<Stmt>, max: nat)
    requires Ready(st) && Has(toks, p, Text(stmts)) && p + |Text(stmts)| == |toks| && AllReadable(stmts, max)
    ensures AllProper(stmts)
    ensures RunText(st, toks, p, max) == match Run(st, stmts)
                                        case Ok(s) => Accepted(s.root)
                                        case Err(e) => Rejected(Semantic(e))
    decreases |stmts|
  {
    hide RunText, ReadLine, Has, Text, LineText, Step, Readable, AllReadable;
    ReadableIsProper(stmts, max);
    if stmts == [] {
      TextEnds(st, toks, p, max);
    } else {
      var s := stmts[0];
      TextAt(toks, p, stmts);
      AllReadableFirst(stmts, max);
      FirstLineRuns(st, toks, p, s, max);
      if Step(st, s).Ok? {
        RunTextOf(Step(st, s).value, toks, p + |LineText(s)|, stmts[1..], max);
      }
    }
  }

  lemma {:induction false} TextEnds(st: State, toks: seq<Tok>, p: nat, max: nat)
    requires Ready(st) && p <= |toks|
    ensures |Text([])| == 0
    ensures p == |toks| ==> RunText(st, toks, p, max) == Accepted(st.root)
  {
  }

  lemma {:induction false} ReadableIsProper(stmts: seq<Stmt>, max: nat)
    requires AllReadable(stmts, max)
    ensures AllProper(stmts)
  {
  }

  lemma {:induction false} AllReadableFirst(stmts: seq<Stmt>, max: nat)
    requires AllReadable(stmts, max) && stmts != []
    ensures Readable(stmts[0], max) && Proper(stmts[0]) && AllReadable(stmts[1..], max)
  {
    assert stmts[0] in stmts;
  }

  /** A line is read and run, and the rest follows behind its line end. */
  lemma {:induction false} FirstLineRuns(st: State, toks: seq<Tok>, p: nat, s: Stmt, max: nat)
    requires Ready(st) && Has(toks, p, LineText(s)) && Readable(s, max) && Proper(s)
    ensures p + |LineText(s)| <= |toks|
    ensures RunText(st, toks, p, max) == match Step(st, s)
                                        case Ok(st') => RunText(st', toks, p + |LineText(s)|, max)
                                        case Err(e) => Rejected(Semantic(e))
  {
    hide *;
    ReadBack(toks, p, s, max);
    LineFits(toks, p, s);
    var n := p + |LineText(s)| - 1;
    RunTextStep(st, toks, p, s, n, max);
    if Step(st, s).Ok? {
      RunTextSkips(Step(st, s).value, toks, n, max);
    }
  }

  lemma {:induction false} RunTextStep(st: State, toks: seq<Tok>, p: nat, s: Stmt, n: nat, max: nat)
    requires Ready(st) && Proper(s) && p < |toks| && toks[p] != Newline
    requires ReadLine(toks, p, max) == Got(s, n) && n < |toks| && toks[n] == Newline
    ensures RunText(st, toks, p, max) == match Step(st, s)
                                        case Ok(st') => RunText(st', toks, n, max)
                                        case Err(e) => Rejected(Semantic(e))
  {
    hide ReadLine, Step, Ready, Proper;
    assert SkipGap(toks, p) == p;
  }

  lemma {:induction false} LineFits(toks: seq<Tok>, p: nat, s: Stmt)
    requires Has(toks, p, LineText(s))
    ensures 0 < |LineText(s)| && p + |LineText(s)| <= |toks|
  {
  }

  lemma {:induction false} SkipOne(toks: seq<Tok>, n: nat)
    requires n < |toks| && toks[n] == Newline
    ensures SkipGap(toks, n) == SkipGap(toks, n + 1)
  {
  }

  lemma {:induction false} RunTextSkips(st: State, toks: seq<Tok>, n: nat, max: nat)
    requires Ready(st) && n < |toks| && toks[n] == Newline
    ensures RunText(st, toks, n, max) == RunText(st, toks, n + 1, max)
  {
    SkipOne(toks, n);
  }

  // ------------------------------------------------- emitted text read back

  lemma {:induction false} TextOne(s: Stmt)
    ensures Text([s]) == LineText(s)
  {
    assert Text([s][1..]) == [];
  }

  lemma {:induction false} TextConcat(a: seq<Stmt>, b: seq<Stmt>)
    ensures Text(a + b) == Text(a) + Text(b)
    decreases |a|
  {
    if a == [] {
      assert a + b == b;
    } else {
      Concat(a, b);
      TextConcat(a[1..], b);
    }
  }

  /** Flags leave no trace in the text of a value. */
  lemma {:induction false} InlinedText(v: Tree)
    ensures ValueText(Inlined(v)) == ValueText(v) && Nesting(Inlined(v)) == Nesting(v)
    decreases v, 1
  {
    match v
    case Leaf(_) =>
    case Array(_, items) => InlinedItemsText(items);
    case Table(_, es) => InlinedMembersText(es);
  }

  lemma {:induction false} InlinedItemsText(items: seq<Tree>)
    ensures ItemsText(InlinedItems(items)) == ItemsText(items)
    ensures MoreItemsText(InlinedItems(items)) == MoreItemsText(items)
    ensures ItemsNesting(InlinedItems(items)) == ItemsNesting(items)
    decreases items, 0
  {
    if items != [] {
      InlinedText(items[0]);
      InlinedItemsText(items[1..]);
      assert InlinedItems(items)[1..] == InlinedItems(items[1..]);
    }
  }

  lemma {:induction false} InlinedMembersText(es: seq<Entry>)
    ensures MembersText(InlinedEntries(es)) == MembersText(es)
    ensures MoreMembersText(InlinedEntries(es)) == MoreMembersText(es)
    ensures MembersNesting(InlinedEntries(es)) == MembersNesting(es)
    decreases es, 0
  {
    if es != [] {
      InlinedText(es[0].value);
      InlinedMembersText(es[1..]);
      assert InlinedEntries(es)[1..] == InlinedEntries(es[1..]);
    }
  }

  /** Every header path has at most `max` parts and every value's brackets nest
      at most `max` deep, counting from a table `depth` parts down. */
  predicate Fits(es: seq<Entry>, depth: nat, max: nat)
    decreases es, 0
  {
    es == [] ||
    ((if IsSection(es[0].value) then depth < max && SectionFits(es[0].value, depth + 1, max)
      else 0 < max && Nesting(es[0].value) <= max)
     && Fits(es[1..], depth, max))
  }

  predicate SectionFits(v: Tree, depth: nat, max: nat)
    decreases v
  {
    match v
    case Leaf(_) => true
    case Table(_, es) => Fits(es, depth, max)
    case Array(_, items) => ElementsFit(items, depth, max)
  }

  predicate ElementsFit(items: seq<Tree>, depth: nat, max: nat)
    decreases items
  {
    items == [] || (SectionFits(items[0], depth, max) && ElementsFit(items[1..], depth, max))
  }

  lemma {:induction false} ReadableConcat(a: seq<Stmt>, b: seq<Stmt>, max: nat)
    requires AllReadable(a, max) && AllReadable(b, max)
    ensures AllReadable(a + b, max)
  {
    forall s | s in a + b ensures Readable(s, max) {
      assert s in a || s in b;
    }
  }

  lemma {:induction false} KeyValsReadable(es: seq<Entry>, depth: nat, max: nat)
    requires AllWellFormed(es) && Fits(es, depth, max)
    ensures AllReadable(KeyVals(es), max)
    decreases |es|
  {
    if es != [] {
      assert es[0] in es;
      KeyValsReadable(es[1..], depth, max);
      if !IsSection(es[0].value) {
        var v := es[0].value;
        InlinedIsValue(v);
        InlinedTwice(v);
        InlinedText(v);
        ReadableConcat([KeyVal([es[0].key], Inlined(v))], KeyVals(es[1..]), max);
      }
    }
  }

  lemma {:induction false} BodyReadable(path: seq<Key>, es: seq<Entry>, max: nat)
    requires AllWellFormed(es) && Fits(es, |path|, max)
    ensures AllReadable(Body(path, es), max)
    decreases es, 1
  {
    KeyValsReadable(es, |path|, max);
    SectionsReadable(path, es, max);
    ReadableConcat(KeyVals(es), Sections(path, es), max);
  }

  lemma {:induction false} SectionsReadable(path: seq<Key>, es: seq<Entry>, max: nat)
    requires AllWellFormed(es) && Fits(es, |path|, max)
    ensures AllReadable(Sections(path, es), max)
    decreases es, 0
  {
    if es != [] {
      assert es[0] in es;
      SectionsReadable(path, es[1..], max);
      if IsSection(es[0].value) {
        var p := path + [es[0].key];
        match es[0].value
        case Table(_, sub) =>
          BodyReadable(p, sub, max);
          ReadableConcat([Header(p)], Body(p, sub), max);
        case Array(_, items) =>
          ElementsReadable(p, items, max);
        ReadableConcat(Section(p, es[0].value), Sections(path, es[1..]), max);
      }
    }
  }

  lemma {:induction false} ElementsReadable(path: seq<Key>, items: seq<Tree>, max: nat)
    requires AllSectionTables(items) && 0 < |path| <= max && ElementsFit(items, |path|, max)
    ensures AllReadable(Elements(path, items), max)
    decreases items
  {
    if items != [] {
      assert items[0] in items;
      BodyReadable(path, items[0].entries, max);
      ElementsReadable(path, items[1..], max);
      ReadableConcat([AotHeader(path)], Body(path, items[0].entries), max);
      ReadableConcat(Element(path, items[0]), Elements(path, items[1..]), max);
    }
  }

  /** The text emitted for a well-formed document within the depth limit is
      accepted, and read back with the same content in normal form. */
  lemma {:induction false} EmittedTextReadsBack(root: Tree, max: nat)
    requires IsSectionTable(root) && WellFormed(root) && Fits(root.entries, 0, max)
    ensures RunText(InitialState, Text(Emit(root)), 0, max) == Accepted(Normal(root))
    ensures SameContent(root, RunText(InitialState, Text(Emit(root)), 0, max).root)
  {
    BodyReadable([], root.entries, max);
    EmitThenRun(root);
    RunTextOf(InitialState, Text(Emit(root)), 0, Emit(root), max);
  }
}
