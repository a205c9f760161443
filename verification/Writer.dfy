/** The streaming writer: a stack of frames, a pending key and one output
    buffer, updated operation by operation. */
module Writer {
  import opened Document
  import opened Statements
  import opened RoundTrip
  import opened Tokens
  import opened Description
  import opened WriterText

  datatype Kind = FTable | FArray | FAot | FItab

  /** The frames from the innermost down to the root table's. */
  datatype Frames = NoFrame | Frame(down: Frames, kind: Kind, key: Maybe<Key>, first: bool, sawSubtable: bool)

  datatype Child = NoChild | SectionChild | InlineChild

  /** The frames are those of the open containers; `child` is the kind of
      container that is open inside `o`. */
  ghost predicate Matches(f: Frames, o: Open, child: Child) {
    && f.Frame?
    && match o
       case Root(es) =>
         f.kind.FTable? && f.key.Nothing? && f.down.NoFrame? && f.sawSubtable == (HasSection(es) || child.SectionChild?)
       case Sub(b, k, es) =>
         f.kind.FTable? && f.key == Just(k) && f.sawSubtable == (HasSection(es) || child.SectionChild?)
         && Matches(f.down, b, SectionChild)
       case Elem(b, es) =>
         f.kind.FTable? && f.key.Nothing? && f.sawSubtable == (HasSection(es) || child.SectionChild?)
         && Matches(f.down, b, SectionChild)
       case Aot(b, k, _) =>
         f.kind.FAot? && f.key == Just(k) && !f.sawSubtable && Matches(f.down, b, SectionChild)
       case Arr(b, _, items) =>
         f.kind.FArray? && f.key.Nothing? && !f.sawSubtable && f.first == (items != [] || child.InlineChild?)
         && Matches(f.down, b, InlineChild)
       case Itab(b, _, es) =>
         f.kind.FItab? && f.key.Nothing? && !f.sawSubtable && f.first == (es != [] || child.InlineChild?)
         && Matches(f.down, b, InlineChild)
  }

  /** The keys of at most `n` frames, outermost first. */
  function KeysOf(f: Frames, n: nat): seq<Key> {
    if f.NoFrame? || n == 0 then []
    else KeysOf(f.down, n - 1) + if (f.kind.FTable? || f.kind.FAot?) && f.key.Just? then [f.key.value] else []
  }

  lemma {:induction false} KeysArePath(f: Frames, o: Open, child: Child, n: nat)
    requires Matches(f, o, child) && Height(o) <= n
    ensures KeysOf(f, n) == PathOf(o)
    decreases o
  {
    match o
    case Root(_) =>
    case Sub(b, _, _) => KeysArePath(f.down, b, SectionChild, n - 1);
    case Elem(b, _) => KeysArePath(f.down, b, SectionChild, n - 1);
    case Aot(b, _, _) => KeysArePath(f.down, b, SectionChild, n - 1);
    case Arr(b, _, _) => KeysArePath(f.down, b, InlineChild, n - 1);
    case Itab(b, _, _) => KeysArePath(f.down, b, InlineChild, n - 1);
  }

  lemma {:induction false} SectionAppended(es: seq<Entry>, e: Entry)
    ensures HasSection(es + [e]) == (HasSection(es) || IsSection(e.value))
  {
    if HasSection(es) {
      var x :| x in es && IsSection(x.value);
      assert x in es + [e];
    } else if IsSection(e.value) {
      assert e in es + [e];
    }
  }

  /** The frame that is on top once a value has been put in its container. */
  lemma {:induction false} MatchesAdded(f: Frames, o: Open, name: Maybe<Key>, v: Tree)
    requires if o.Arr? then name.Nothing? else HasKeys(o) && name.Just?
    requires !IsSection(v) && Matches(f, o, InlineChild)
    ensures Matches(f, AddValue(o, name, v), NoChild)
  {
    if IsTable(o) {
      SectionAppended(o.entries, Entry(name.value, v));
    }
  }

  lemma {:induction false} MatchesClosed(f: Frames, o: Open)
    requires Nested(o) && !o.Root? && Matches(f, o, NoChild) && Fitting(o)
    ensures Matches(f.down, Closed(o), NoChild)
  {
    match o
    case Sub(b, k, es) => SectionAppended(b.entries, Entry(k, Completed(o)));
    case Aot(b, k, items) => SectionAppended(b.entries, Entry(k, Completed(o)));
    case Elem(b, es) =>
    case Arr(b, name, items) => MatchesAdded(f.down, b, name, Completed(o));
    case Itab(b, name, es) => MatchesAdded(f.down, b, name, Completed(o));
  }

  /** Everything the writer has to know about a value in its place. */
  lemma {:induction false} ValuePlaced(f: Frames, d: Desc, v: Tree)
    requires Nested(d.open) && Good(d.open) && Place(d).At? && Matches(f, d.open, InlineChild)
    requires IsValue(v) && Inlined(v) == v
    ensures AddAt(d, v).Next?
    ensures var d' := AddAt(d, v).desc;
            && Good(d'.open) && Matches(f, d'.open, NoChild) && d'.key.Nothing?
            && OpenText(d'.open) == OpenText(d.open) + (Lead(d.open, Place(d).name) + ValueText(v) + Tail(d.open))
    ensures Tail(d.open) == if f.kind.FTable? then [Newline] else []
  {
    InlinedIsNoSection(v);
    AddValueText(d.open, Place(d).name, v);
    AddValueGood(d.open, Place(d).name, v);
    MatchesAdded(f, d.open, Place(d).name, v);
  }

  lemma {:induction false} GoodValuesFirst(o: Open)
    requires Nested(o) && Good(o)
    ensures ValuesFirst(o)
  {
  }

  lemma {:induction false} Assoc3<T>(a: seq<T>, b: seq<T>, c: seq<T>, d: seq<T>)
    ensures a + b + c + d == a + (b + c + d)
  {
  }

  /** Everything the writer has to know about an inline container in its place. */
  lemma {:induction false} InlineOpened(f: Frames, d: Desc)
    requires Nested(d.open) && Good(d.open) && Place(d).At? && Matches(f, d.open, InlineChild)
    ensures var a := Arr(d.open, Place(d).name, []);
            && OpStep(d, BeginArray) == Next(Desc(a, Nothing)) && Good(a)
            && Matches(Frame(f, FArray, Nothing, false, false), a, NoChild)
            && OpenText(a) == OpenText(d.open) + Lead(d.open, Place(d).name) + [OpenBracket]
    ensures var t := Itab(d.open, Place(d).name, []);
            && OpStep(d, BeginInlineTable) == Next(Desc(t, Nothing)) && Good(t)
            && Matches(Frame(f, FItab, Nothing, false, false), t, NoChild)
            && OpenText(t) == OpenText(d.open) + Lead(d.open, Place(d).name) + [OpenBrace]
  {
    OpenedText(d.open, "", Place(d).name);
    StepGood(d, BeginArray);
    StepGood(d, BeginInlineTable);
  }

  /** Everything the writer has to know about an array of tables in its place. */
  lemma {:induction false} AotOpened(f: Frames, d: Desc)
    requires Nested(d.open) && Good(d.open) && Matches(f, d.open, NoChild) && d.key.Just? && f.kind.FTable?
    ensures !OpStep(d, BeginAot).Refused?
    ensures OpStep(d, BeginAot).Next? ==>
              var d' := OpStep(d, BeginAot).desc;
              && Good(d'.open) && d'.key.Nothing? && OpenText(d'.open) == OpenText(d.open)
              && Matches(Frame(f.(sawSubtable := true), FAot, d.key, false, false), d'.open, NoChild)
  {
    if OpStep(d, BeginAot).Next? {
      StepGood(d, BeginAot);
      OpenedText(d.open, d.key.value, Nothing);
    }
  }

  lemma {:induction false} AotRefused(f: Frames, d: Desc)
    requires Nested(d.open) && Matches(f, d.open, NoChild) && (d.key.Nothing? || !f.kind.FTable?)
    ensures OpStep(d, BeginAot) == Refused(BadArgument)
  {
  }

  lemma {:induction false} OnlyRootHasNoFrameBelow(f: Frames, o: Open, child: Child)
    requires Matches(f, o, child)
    ensures f.down.NoFrame? <==> o.Root?
  {
  }

  /** What closing frame `f` writes. */
  function Bracket(f: Frames): seq<Tok>
    requires f.Frame? && f.down.Frame?
  {
    if f.kind.FArray? || f.kind.FItab? then
      [if f.kind.FArray? then CloseBracket else CloseBrace] + (if f.down.kind.FTable? then [Newline] else [])
    else []
  }

  /** Everything the writer has to know about closing a container. */
  lemma {:induction false} ClosedPlaced(f: Frames, d: Desc)
    requires Nested(d.open) && Good(d.open) && Matches(f, d.open, NoChild)
    ensures f.down.NoFrame? ==> OpStep(d, Close) == Refused(BadArgument)
    ensures f.down.Frame? ==> !OpStep(d, Close).Refused?
    ensures OpStep(d, Close).Next? ==>
              var d' := OpStep(d, Close).desc;
              && Good(d'.open) && Matches(f.down, d'.open, NoChild) && d'.key == d.key
              && OpenText(d'.open) == OpenText(d.open) + Bracket(f)
  {
    OnlyRootHasNoFrameBelow(f, d.open, NoChild);
    if OpStep(d, Close).Next? {
      StepGood(d, Close);
      GoodValuesFirst(d.open);
      CloseText(d.open);
      MatchesClosed(f, d.open);
      assert Closing(d.open) == Bracket(f);
    }
  }

  class Writer {
    var out: seq<Tok>
    var key: Maybe<Key>
    var top: Frames
    var st: Maybe<Status>  // Nothing while every operation was taken
    var finished: bool     // the text was handed over
    ghost var desc: Desc   // what has been described

    /** The frames, the pending key and the output are those of `desc`. */
    ghost predicate Valid()
      reads this
    {
      && Nested(desc.open) && Good(desc.open) && Matches(top, desc.open, NoChild)
      && key == desc.key && out == OpenText(desc.open)
    }

    /** Operations can be taken: nothing was refused and the root is open. */
    predicate Running()
      reads this
    {
      st.Nothing? && top.Frame?
    }

    constructor ()
      ensures Valid() && Running() && !finished && desc == Desc(Root([]), Nothing)
    {
      out, key, st, finished := [], Nothing, Nothing, false;
      top := Frame(NoFrame, FTable, Nothing, false, false);
      desc := Desc(Root([]), Nothing);
    }

    /** The writer did what `next` says of the description. */
    ghost predicate Did(next: Outcome)
      reads this
    {
      && top.Frame?
      && match next
         case Next(d) => st.Nothing? && desc == d && Valid()
         case Refused(s) => st == Just(s)
         case Undescribed(_) => true
    }

    /** The dotted path of the keyed frames. */
    method Path() returns (path: seq<Key>)
      ensures path == KeysOf(top, MAX_PATH_FRAMES)
    {
      path := [];
      var f, n := top, 0;
      while f.Frame? && n < MAX_PATH_FRAMES
        invariant n <= MAX_PATH_FRAMES
        invariant KeysOf(f, MAX_PATH_FRAMES - n) + path == KeysOf(top, MAX_PATH_FRAMES)
        decreases f
      {
        if (f.kind.FTable? || f.kind.FAot?) && f.key.Just? {
          assert KeysOf(f, MAX_PATH_FRAMES - n) + path ==
                 KeysOf(f.down, MAX_PATH_FRAMES - n - 1) + ([f.key.value] + path);
          path := [f.key.value] + path;
        }
        f, n := f.down, n + 1;
      }
    }

    /** A comma before every inline item but the first. */
    method Separate()
      requires top.Frame?
      modifies this`out, this`top
      ensures out == old(out) + if old(top).first then [Comma] else []
      ensures top == old(top).(first := true)
    {
      if top.first {
        out := out + [Comma];
      }
      top := top.(first := true);
    }

    /** What precedes a value: its separator and its key. */
    method KeyedPrefix()
      requires Running()
      modifies this`out, this`top, this`key, this`st
      ensures top.Frame?
      ensures old(Valid()) ==>
                match Place(desc)
                case At(name) =>
                  && st.Nothing? && key.Nothing?
                  && out == old(out) + Lead(desc.open, name)
                  && Matches(top, desc.open, InlineChild)
                case No(s) => st == Just(s)
                case Stray(_) => true
    {
      if top.kind.FArray? {
        Separate();
        return;
      }
      if top.kind.FItab? {
        Separate();
      }
      if key.Nothing? {
        st := Just(BadArgument);
        return;
      }
      if top.sawSubtable {
        st := Just(BadState);
        return;
      }
      out := out + [KeyTok([key.value]), Equals];
      key := Nothing;
    }

    method EndLine()
      requires top.Frame?
      modifies this`out
      ensures out == old(out) + if top.kind.FTable? then [Newline] else []
    {
      if top.kind.FTable? {
        out := out + [Newline];
      }
    }

    /** A whole value: a scalar, an empty table or an empty array. */
    method ValueOp(v: Tree)
      requires Running() && IsValue(v) && Inlined(v) == v
      modifies this`out, this`key, this`top, this`st, this`desc
      ensures top.Frame?
      ensures old(Valid()) ==> Did(AddAt(old(desc), v))
    {
      ghost var before := out;
      KeyedPrefix();
      if st.Just? {
        return;
      }
      out := out + ValueText(v);
      EndLine();
      if old(Valid()) && Place(desc).At? {
        ValuePlaced(top, desc, v);
        Assoc3(before, Lead(desc.open, Place(desc).name), ValueText(v), Tail(desc.open));
        desc := AddAt(desc, v).desc;
      }
    }

    method Push(kind: Kind, k: Maybe<Key>)
      modifies this`top
      ensures top == Frame(old(top), kind, k, false, false)
    {
      top := Frame(top, kind, k, false, false);
    }

    /** A section header, or the header of an element of an array of tables. */
    method BeginTableOp()
      requires Running()
      modifies this`out, this`key, this`top, this`st, this`desc
      ensures top.Frame?
      ensures old(Valid()) ==> Did(OpStep(old(desc), BeginTable))
    {
      if top.kind.FArray? || top.kind.FItab? {
        st := Just(BadArgument);
      } else if top.kind.FAot? {
        ElementHeader();
      } else if key.Nothing? {
        st := Just(BadArgument);
      } else {
        SectionHeader();
      }
    }

    method ElementHeader()
      requires Running() && top.kind.FAot?
      modifies this`out, this`key, this`top, this`st, this`desc
      ensures top.Frame?
      ensures old(Valid()) ==> Did(OpStep(old(desc), BeginTable))
    {
      if Valid() && OpStep(desc, BeginTable).Next? {
        KeysArePath(top, desc.open, NoChild, MAX_PATH_FRAMES);
        OpenedText(desc.open, "", Nothing);
        desc := OpStep(desc, BeginTable).desc;
      }
      var path := Path();
      out := out + [AotTok(path), Newline];
      key := Nothing;
      Push(FTable, Nothing);
    }

    method SectionHeader()
      requires Running() && top.kind.FTable? && key.Just?
      modifies this`out, this`key, this`top, this`st, this`desc
      ensures top.Frame?
      ensures old(Valid()) ==> Did(OpStep(old(desc), BeginTable))
    {
      if Valid() && OpStep(desc, BeginTable).Next? {
        KeysArePath(top, desc.open, NoChild, MAX_PATH_FRAMES);
        OpenedText(desc.open, key.value, Nothing);
        desc := OpStep(desc, BeginTable).desc;
      }
      top := top.(sawSubtable := true);
      var path := Path();
      out := out + [HeaderTok(path + [key.value]), Newline];
      Push(FTable, key);
      key := Nothing;
    }

    /** An array of tables: nothing is written before its first element. */
    method BeginAotOp()
      requires Running()
      modifies this`out, this`key, this`top, this`st, this`desc
      ensures top.Frame?
      ensures old(Valid()) ==> Did(OpStep(old(desc), BeginAot))
    {
      hide OpStep, Matches, Good, OpenText, Nested;
      if key.Nothing? || !top.kind.FTable? {
        if Valid() {
          AotRefused(top, desc);
        }
        st := Just(BadArgument);
        return;
      }
      if Valid() {
        AotOpened(top, desc);
        if OpStep(desc, BeginAot).Next? {
          desc := OpStep(desc, BeginAot).desc;
        }
      }
      top := top.(sawSubtable := true);
      Push(FAot, key);
      key := Nothing;
    }

    /** The separator and the key before an inline container. */
    method InlinePrefix()
      requires Running() && (top.kind.FArray? || key.Just?)
      modifies this`out, this`top, this`key
      ensures top.Frame?
      ensures old(Valid()) && Place(desc).At? ==>
                && key.Nothing? && out == old(out) + Lead(desc.open, Place(desc).name)
                && Matches(top, desc.open, InlineChild)
    {
      if top.kind.FArray? {
        Separate();
        return;
      }
      if top.kind.FItab? {
        Separate();
      }
      out := out + [KeyTok([key.value]), Equals];
      key := Nothing;
    }

    /** An inline array. */
    method BeginArrayOp()
      requires Running()
      modifies this`out, this`key, this`top, this`st, this`desc
      ensures top.Frame?
      ensures old(Valid()) ==> Did(OpStep(old(desc), BeginArray))
    {
      if top.kind.FAot? {
        st := Just(BadArgument);
        return;
      }
      if !top.kind.FArray? {
        if key.Nothing? {
          st := Just(BadArgument);
          return;
        }
        if top.sawSubtable {
          st := Just(BadState);
          return;
        }
      }
      InlinePrefix();
      if old(Valid()) && Place(desc).At? {
        InlineOpened(top, desc);
        desc := OpStep(desc, BeginArray).desc;
      }
      out := out + [OpenBracket];
      Push(FArray, Nothing);
    }

    /** An inline table. */
    method BeginInlineTableOp()
      requires Running()
      modifies this`out, this`key, this`top, this`st, this`desc
      ensures top.Frame?
      ensures old(Valid()) ==> Did(OpStep(old(desc), BeginInlineTable))
    {
      if top.kind.FArray? {
        if key.Just? {
          st := Just(BadArgument);
          return;
        }
      } else {
        if key.Nothing? {
          st := Just(BadArgument);
          return;
        }
        if top.sawSubtable {
          st := Just(BadState);
          return;
        }
      }
      InlinePrefix();
      if old(Valid()) && Place(desc).At? {
        InlineOpened(top, desc);
        desc := OpStep(desc, BeginInlineTable).desc;
      }
      out := out + [OpenBrace];
      Push(FItab, Nothing);
    }

    /** Closes the innermost container. */
    method CloseOp()
      requires Running()
      modifies this`out, this`key, this`top, this`st, this`desc
      ensures top.Frame?
      ensures old(Valid()) ==> Did(OpStep(old(desc), Close))
    {
      hide OpStep, Matches, Good, OpenText, Nested;
      if Valid() {
        ClosedPlaced(top, desc);
      }
      if top.down.NoFrame? {
        st := Just(BadArgument);
        return;
      }
      if Valid() && OpStep(desc, Close).Next? {
        desc := OpStep(desc, Close).desc;
      }
      var kind := top.kind;
      top := top.down;
      if kind.FArray? || kind.FItab? {
        out := out + [if kind.FArray? then CloseBracket else CloseBrace];
        EndLine();
      }
      assert out == old(out) + Bracket(old(top));
    }

    /** One operation of the stream. */
    method Take(op: Op)
      requires Running()
      modifies this`out, this`key, this`top, this`st, this`desc
      ensures top.Frame?
      ensures old(Valid()) ==> Did(OpStep(old(desc), op))
    {
      match op {
        case KeyOp(k) =>
          key := Just(k);
          desc := Desc(desc.open, key);
        case ScalarOp(s) => ValueOp(Leaf(s));
        case EmptyTableOp => ValueOp(Table(Inline, []));
        case EmptyArrayOp => ValueOp(Array(false, []));
        case BeginTable => BeginTableOp();
        case BeginArray => BeginArrayOp();
        case BeginAot => BeginAotOp();
        case BeginInlineTable => BeginInlineTableOp();
        case Close => CloseOp();
      }
    }

    /** A chunk of the stream: nothing is taken any more once an operation was
        refused or the text handed over. */
    method Feed(ops: seq<Op>) returns (status: Maybe<Status>)
      requires top.Frame?
      modifies this`out, this`key, this`top, this`st, this`desc
      ensures top.Frame? && status == if finished then Just(BadState) else st
      ensures finished || old(st).Just? ==> unchanged(this)
      ensures !finished && old(Running() && Valid()) ==> Did(Describe(old(desc), ops))
    {
      if finished {
        return Just(BadState);
      }
      var i := 0;
      ghost var sound := Running() && Valid();
      assert ops[0..] == ops;
      while i < |ops| && st.Nothing?
        invariant 0 <= i <= |ops| && top.Frame? && (old(st).Just? ==> unchanged(this))
        invariant sound ==> old(Valid()) && if st.Nothing? then Valid()
                  && Describe(desc, ops[i..]) == Describe(old(desc), ops)
                                            else Describe(old(desc), ops) == Refused(st.value)
        invariant !sound && old(Running() && Valid()) ==> Describe(old(desc), ops).Undescribed?
      {
        assert ops[i..][1..] == ops[i + 1..] && ops[i..][0] == ops[i];
        ghost var next := if sound then OpStep(desc, ops[i]) else Undescribed(DuplicateKeyGiven);
        Take(ops[i]);
        sound := sound && !next.Undescribed?;
        i := i + 1;
      }
      assert i == |ops| ==> ops[i..] == [];
      status := st;
    }

    /** The finished text, handed over once: it is what the emitter writes for
        the document that was described, and it reads back as exactly that
        document.  There is none while a container is open or once an operation
        was refused. */
    method Finish(ghost max: nat) returns (status: Maybe<Status>, text: seq<Tok>)
      requires top.Frame?
      modifies this`finished
      ensures status == if top.down.Frame? then Just(BadState) else st
      ensures finished == (old(finished) || status.Nothing?)
      ensures status.Just? || old(finished) ==> text == []
      ensures Valid() && st.Nothing? ==> (status.Nothing? <==> desc.open.Root?)
      ensures Valid() && status.Nothing? && !old(finished) ==>
                var root := Completed(desc.open);
                && IsSectionTable(root) && WellFormed(root)
                && text == Text(Emit(root))
                && (Fits(root.entries, 0, max) ==> RunText(InitialState, text, 0, max) == Accepted(root))
    {
      if Valid() {
        OnlyRootHasNoFrameBelow(top, desc.open, NoChild);
        if desc.open.Root? {
          Finished(desc.open);
          if Fits(Completed(desc.open).entries, 0, max) {
            EmittedTextReadsBack(Completed(desc.open), max);
          }
        }
      }
      if top.down.Frame? {
        return Just(BadState), [];
      }
      if st.Just? {
        return st, [];
      }
      status, text := Nothing, if finished then [] else out;
      finished := true;
    }
  }
}
