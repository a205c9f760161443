/** The document emitter: a recursive walk that appends to one buffer. */
module Emitter {
  import opened Sequences
  import opened Document
  import opened Statements
  import opened Content
  import opened RoundTrip
  import opened Tokens

  /** Moving the text just written from the rest to what is out. */
  lemma {:induction false} Wrote<T>(out: seq<T>, text: seq<T>, rest: seq<T>, all: seq<T>)
    requires out + (text + rest) == all
    ensures out + text + rest == all
  {
    assert out + text + rest == out + (text + rest);
  }

  lemma {:induction false} NextItem(items: seq<Tree>, i: nat)
    requires i < |items|
    ensures MoreItemsText(items[i..]) == [Comma] + (ValueText(items[i]) + MoreItemsText(items[i + 1..]))
  {
    assert items[i..][1..] == items[i + 1..];
    assert [Comma] + ValueText(items[i]) + MoreItemsText(items[i + 1..])
        == [Comma] + (ValueText(items[i]) + MoreItemsText(items[i + 1..]));
  }

  /** The text of the members from the `i`th on, commas included. */
  function MembersFrom(es: seq<Entry>, i: nat): seq<Tok>
    requires i <= |es|
  {
    if i == 0 then MembersText(es) else MoreMembersText(es[i..])
  }

  lemma {:induction false} NextMember(es: seq<Entry>, i: nat)
    requires i < |es|
    ensures MembersFrom(es, i)
         == (if i == 0 then [] else [Comma]) +
           ([KeyTok([es[i].key])] + ([Equals] + (ValueText(es[i].value) + MembersFrom(es, i + 1))))
  {
    assert es[i..][1..] == es[i + 1..];
    var v, rest := ValueText(es[i].value), MembersFrom(es, i + 1);
    assert MemberText(es[i]) + rest == [KeyTok([es[i].key])] + ([Equals] + (v + rest));
    if i > 0 {
      assert [Comma] + MemberText(es[i]) + rest == [Comma] + (MemberText(es[i]) + rest);
    }
  }

  lemma {:induction false} LineRest(k: Key, v: Tree, rest: seq<Tok>)
    ensures LineText(KeyVal([k], v)) + rest == [KeyTok([k])] + ([Equals] + (ValueText(v) + ([Newline] + rest)))
  {
    var line := LineText(KeyVal([k], v));
    assert line == [KeyTok([k])] + ([Equals] + (ValueText(v) + [Newline]));
  }

  lemma {:induction false} NextKeyVal(es: seq<Entry>, i: nat)
    requires i < |es|
    ensures Text(KeyVals(es[i..])) ==
            if IsSection(es[i].value) then Text(KeyVals(es[i + 1..]))
            else
              [KeyTok([es[i].key])]
              + ([Equals] + (ValueText(es[i].value) + ([Newline] + Text(KeyVals(es[i + 1..])))))
  {
    var v := es[i].value;
    assert es[i..][0] == es[i] && es[i..][1..] == es[i + 1..];
    if !IsSection(v) {
      InlinedText(v);
      var line := KeyVal([es[i].key], Inlined(v));
      TextConcat([line], KeyVals(es[i + 1..]));
      TextOne(line);
      LineRest(es[i].key, Inlined(v), Text(KeyVals(es[i + 1..])));
    }
  }

  lemma {:induction false} NextSection(path: seq<Key>, es: seq<Entry>, i: nat)
    requires i < |es|
    ensures Text(Sections(path, es[i..])) ==
            if IsSection(es[i].value)
              then Text(Section(path + [es[i].key], es[i].value)) + Text(Sections(path, es[i + 1..]))
            else Text(Sections(path, es[i + 1..]))
  {
    assert es[i..][0] == es[i] && es[i..][1..] == es[i + 1..];
    if IsSection(es[i].value) {
      TextConcat(Section(path + [es[i].key], es[i].value), Sections(path, es[i + 1..]));
    }
  }

  /** The text below an element's header. */
  function ElementBody(path: seq<Key>, item: Tree): seq<Stmt> {
    if item.Table? then Body(path, item.entries) else []
  }

  lemma {:induction false} NextElement(path: seq<Key>, items: seq<Tree>, i: nat)
    requires i < |items|
    ensures Text(Elements(path, items[i..]))
         == [AotTok(path), Newline] + (Text(ElementBody(path, items[i])) + Text(Elements(path, items[i + 1..])))
  {
    assert items[i..][0] == items[i] && items[i..][1..] == items[i + 1..];
    TextConcat(Element(path, items[i]), Elements(path, items[i + 1..]));
    TextConcat([AotHeader(path)], ElementBody(path, items[i]));
    TextOne(AotHeader(path));
    Assoc([AotTok(path), Newline], Text(ElementBody(path, items[i])), Text(Elements(path, items[i + 1..])));
  }

  class Emitter {
    var out: seq<Tok>

    constructor ()
      ensures out == []
    {
      out := [];
    }

    method Put(text: seq<Tok>, ghost rest: seq<Tok>, ghost all: seq<Tok>)
      requires out + (text + rest) == all
      modifies this
      ensures out == old(out) + text && out + rest == all
    {
      Wrote(out, text, rest, all);
      out := out + text;
    }

    method EmitValue(v: Tree)
      modifies this
      ensures out == old(out) + ValueText(v)
      decreases v, 1
    {
      match v {
        case Leaf(s) => out := out + [ScalarTok(s)];
        case Array(_, items) => EmitArray(items);
        case Table(_, es) => EmitInlineTable(es);
      }
    }

    method EmitArray(items: seq<Tree>)
      modifies this
      ensures out == old(out) + ([OpenBracket] + ItemsText(items) + [CloseBracket])
      decreases items, 0
    {
      ghost var all := old(out) + [OpenBracket] + ItemsText(items);
      out := out + [OpenBracket];
      if |items| > 0 {
        Wrote(out, ValueText(items[0]), MoreItemsText(items[1..]), all);
        EmitValue(items[0]);
        var i := 1;
        while i < |items|
          invariant 1 <= i <= |items|
          invariant out + MoreItemsText(items[i..]) == all
        {
          NextItem(items, i);
          Put([Comma], ValueText(items[i]) + MoreItemsText(items[i + 1..]), all);
          Wrote(out, ValueText(items[i]), MoreItemsText(items[i + 1..]), all);
          EmitValue(items[i]);
          i := i + 1;
        }
        assert items[i..] == [];
      }
      assert out == all;
      out := out + [CloseBracket];
    }

    method EmitInlineTable(es: seq<Entry>)
      modifies this
      ensures out == old(out) + ([OpenBrace] + MembersText(es) + [CloseBrace])
      decreases es, 0
    {
      ghost var all := old(out) + [OpenBrace] + MembersText(es);
      out := out + [OpenBrace];
      var i := 0;
      while i < |es|
        invariant 0 <= i <= |es|
        invariant out + MembersFrom(es, i) == all
      {
        var v := es[i].value;
        ghost var rest := MembersFrom(es, i + 1);
        NextMember(es, i);
        Put(if i > 0 then [Comma] else [], [KeyTok([es[i].key])] + ([Equals] + (ValueText(v) + rest)), all);
        Put([KeyTok([es[i].key])], [Equals] + (ValueText(v) + rest), all);
        Put([Equals], ValueText(v) + rest, all);
        Wrote(out, ValueText(v), rest, all);
        EmitValue(v);
        i := i + 1;
      }
      assert es[i..] == [];
      assert out == all;
      out := out + [CloseBrace];
    }

    method EmitSection(path: seq<Key>, v: Tree)
      modifies this
      ensures out == old(out) + Text(Section(path, v))
      decreases v
    {
      match v {
        case Leaf(_) =>
        case Array(_, items) => EmitElements(path, items);
        case Table(_, es) =>
          TextConcat([Header(path)], Body(path, es));
          TextOne(Header(path));
          ghost var all := old(out) + Text(Section(path, v));
          Put([HeaderTok(path), Newline], Text(Body(path, es)), all);
          EmitTableChildren(path, es);
      }
    }

    method EmitElements(path: seq<Key>, items: seq<Tree>)
      modifies this
      ensures out == old(out) + Text(Elements(path, items))
      decreases items
    {
      ghost var all := old(out) + Text(Elements(path, items));
      var i := 0;
      assert items[0..] == items;
      assert Text(Elements(path, [])) == [];
      hide Text, Elements, ElementBody, Body;
      while i < |items|
        invariant 0 <= i <= |items|
        invariant out + Text(Elements(path, items[i..])) == all
      {
        ghost var rest := Text(Elements(path, items[i + 1..]));
        NextElement(path, items, i);
        EmitElement(path, items[i], rest, all);
        i := i + 1;
      }
      assert items[i..] == [];
    }

    method EmitElement(path: seq<Key>, item: Tree, ghost rest: seq<Tok>, ghost all: seq<Tok>)
      requires out + ([AotTok(path), Newline] + (Text(ElementBody(path, item)) + rest)) == all
      modifies this
      ensures out + rest == all
      decreases item
    {
      ghost var body := Text(ElementBody(path, item));
      Put([AotTok(path), Newline], body + rest, all);
      Wrote(out, body, rest, all);
      if item.Table? {
        EmitTableChildren(path, item.entries);
      }
    }

    /** The values of a table first, then its sections. */
    method EmitTableChildren(path: seq<Key>, es: seq<Entry>)
      modifies this
      ensures out == old(out) + Text(Body(path, es))
      decreases es, 1
    {
      TextConcat(KeyVals(es), Sections(path, es));
      Assoc(out, Text(KeyVals(es)), Text(Sections(path, es)));
      EmitKeyVals(es);
      EmitSections(path, es);
    }

    method EmitKeyVals(es: seq<Entry>)
      modifies this
      ensures out == old(out) + Text(KeyVals(es))
      decreases es, 0
    {
      ghost var all := old(out) + Text(KeyVals(es));
      var i := 0;
      assert es[0..] == es;
      while i < |es|
        invariant 0 <= i <= |es|
        invariant out + Text(KeyVals(es[i..])) == all
      {
        NextKeyVal(es, i);
        var v := es[i].value;
        if !IsSection(v) {
          ghost var rest := Text(KeyVals(es[i + 1..]));
          Put([KeyTok([es[i].key])], [Equals] + (ValueText(v) + ([Newline] + rest)), all);
          Put([Equals], ValueText(v) + ([Newline] + rest), all);
          Wrote(out, ValueText(v), [Newline] + rest, all);
          EmitValue(v);
          Put([Newline], rest, all);
        }
        i := i + 1;
      }
      assert es[i..] == [];
    }

    method EmitSections(path: seq<Key>, es: seq<Entry>)
      modifies this
      ensures out == old(out) + Text(Sections(path, es))
      decreases es, 0
    {
      ghost var all := old(out) + Text(Sections(path, es));
      var i := 0;
      assert es[0..] == es;
      while i < |es|
        invariant 0 <= i <= |es|
        invariant out + Text(Sections(path, es[i..])) == all
      {
        NextSection(path, es, i);
        var v := es[i].value;
        if IsSection(v) {
          Wrote(out, Text(Section(path + [es[i].key], v)), Text(Sections(path, es[i + 1..])), all);
          EmitSection(path + [es[i].key], v);
        }
        i := i + 1;
      }
      assert es[i..] == [];
    }

    /** Emits a whole document; what it emits reads back as the document. */
    method EmitDocument(root: Tree, ghost max: nat)
      requires root.Table? && out == []
      modifies this
      ensures out == Text(Emit(root))
      ensures IsSectionTable(root) && WellFormed(root) && Fits(root.entries, 0, max) ==>
                RunText(InitialState, out, 0, max) == Accepted(Normal(root)) && SameContent(root, Normal(root))
    {
      EmitTableChildren([], root.entries);
      assert out == Text(Emit(root));
      if IsSectionTable(root) && WellFormed(root) && Fits(root.entries, 0, max) {
        EmittedTextReadsBack(root, max);
      }
    }
  }
}
