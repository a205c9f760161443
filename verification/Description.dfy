/** What a stream of writer operations describes: the tree its caller is
    building, kept as the chain of containers that are still open. */
module Description {
  import opened Document
  import opened RoundTrip

  datatype Op =
    | KeyOp(key: Key)
    | ScalarOp(scalar: Scalar)
    | BeginTable
    | BeginArray
    | BeginAot
    | BeginInlineTable
    | Close
    | EmptyTableOp
    | EmptyArrayOp

  /** The open containers, innermost first; each holds what has been completed
      in it so far. */
  datatype Open =
    | Root(entries: seq<Entry>)
    | Sub(below: Open, key: Key, entries: seq<Entry>)             // a section
    | Aot(below: Open, key: Key, items: seq<Tree>)                // an array of tables
    | Elem(below: Open, entries: seq<Entry>)                   // one of its tables
    | Arr(below: Open, name: Maybe<Key>, items: seq<Tree>)        // an inline array
    | Itab(below: Open, name: Maybe<Key>, entries: seq<Entry>)    // an inline table

  /** `key` is the key that the next keyed operation will use. */
  datatype Desc = Desc(open: Open, key: Maybe<Key>)

  datatype Status = BadArgument | BadState

  /** Why an operation describes nothing although the writer may take it. */
  datatype Reason = DuplicateKeyGiven | EmptyAotClosed | KeyForAnItem | ValueInAot | TooDeepForAPath

  datatype Outcome = Next(desc: Desc) | Refused(status: Status) | Undescribed(reason: Reason)

  predicate IsTable(o: Open) {
    o.Root? || o.Sub? || o.Elem?
  }

  predicate HasKeys(o: Open) {
    IsTable(o) || o.Itab?
  }

  predicate HasSection(es: seq<Entry>) {
    exists e :: e in es && IsSection(e.value)
  }

  /** A new entry goes to the end of a keyed container. */
  function AddEntry(o: Open, e: Entry): (r: Open)
    requires HasKeys(o)
    ensures HasKeys(r) && IsTable(r) == IsTable(o) && r.entries == o.entries + [e]
  {
    match o
    case Root(es) => Root(es + [e])
    case Sub(b, k, es) => Sub(b, k, es + [e])
    case Elem(b, es) => Elem(b, es + [e])
    case Itab(b, name, es) => Itab(b, name, es + [e])
  }

  /** A completed value goes to the innermost container. */
  function AddValue(o: Open, name: Maybe<Key>, v: Tree): Open
    requires if o.Arr? then name.Nothing? else HasKeys(o) && name.Just?
  {
    if o.Arr? then Arr(o.below, o.name, o.items + [v]) else AddEntry(o, Entry(name.value, v))
  }

  /** The frames from the innermost to the root. */
  function Height(o: Open): nat {
    if o.Root? then 1 else 1 + Height(o.below)
  }

  const MAX_PATH_FRAMES: nat := 600

  /** May a value start here, and under which name? */
  function Place(d: Desc): (r: Placed)
  {
    var o := d.open;
    if o.Arr? then if d.key.Just? then Stray(KeyForAnItem) else At(Nothing)
    else if d.key.Nothing? then No(BadArgument)
    else if o.Aot? then Stray(ValueInAot)
    else if IsTable(o) && HasSection(o.entries) then No(BadState)
    else if IndexOf(o.entries, d.key.value) < |o.entries| then Stray(DuplicateKeyGiven)
    else At(d.key)
  }

  datatype Placed = At(name: Maybe<Key>) | No(status: Status) | Stray(reason: Reason)

  function AddAt(d: Desc, v: Tree): (r: Outcome)
    requires Nested(d.open)
    ensures r.Next? ==> Nested(r.desc.open)
  {
    match Place(d)
    case At(name) => Next(Desc(AddValue(d.open, name, v), Nothing))
    case No(s) => Refused(s)
    case Stray(r) => Undescribed(r)
  }

  /** The effect of one operation. */
  function OpStep(d: Desc, op: Op): (r: Outcome)
    requires Nested(d.open)
    ensures r.Next? ==> Nested(r.desc.open)
  {
    var o := d.open;
    match op
    case KeyOp(k) => Next(Desc(o, Just(k)))
    case ScalarOp(s) => AddAt(d, Leaf(s))
    case EmptyTableOp => AddAt(d, Table(Inline, []))
    case EmptyArrayOp => AddAt(d, Array(false, []))
    case BeginTable =>
      if o.Arr? || o.Itab? then Refused(BadArgument)
      else if o.Aot? then
        if Height(o) > MAX_PATH_FRAMES then Undescribed(TooDeepForAPath) else Next(Desc(Elem(o, []), Nothing))
      else if d.key.Nothing? then Refused(BadArgument)
      else if Height(o) > MAX_PATH_FRAMES then Undescribed(TooDeepForAPath)
      else if IndexOf(o.entries, d.key.value) < |o.entries| then Undescribed(DuplicateKeyGiven)
      else Next(Desc(Sub(o, d.key.value, []), Nothing))
    case BeginAot =>
      if d.key.Nothing? || !IsTable(o) then Refused(BadArgument)
      else if IndexOf(o.entries, d.key.value) < |o.entries| then Undescribed(DuplicateKeyGiven)
      else Next(Desc(Aot(o, d.key.value, []), Nothing))
    case BeginArray =>
      if o.Aot? then Refused(BadArgument) else
      (match Place(d)
       case At(name) => Next(Desc(Arr(o, name, []), Nothing))
       case No(s) => Refused(s)
       case Stray(r) => Undescribed(r))
    case BeginInlineTable =>
      if o.Arr? && d.key.Just? then Refused(BadArgument) else
      (match Place(d)
       case At(name) => Next(Desc(Itab(o, name, []), Nothing))
       case No(s) => Refused(s)
       case Stray(r) => Undescribed(r))
    case Close =>
      if o.Root? then Refused(BadArgument)
      else if o.Aot? && o.items == [] then Undescribed(EmptyAotClosed)
      else Next(Desc(Closed(o), d.key))
  }

  /** What a container completes to. */
  function Completed(o: Open): Tree {
    match o
    case Root(es) => Table(Explicit, es)
    case Sub(_, _, es) => Table(Explicit, es)
    case Elem(_, es) => Table(Explicit, es)
    case Aot(_, _, items) => Array(true, items)
    case Arr(_, _, items) => Array(false, items)
    case Itab(_, _, es) => Table(Inline, es)
  }

  /** Each kind of container is opened in the right kind of container; true of
      every description the operations lead to. */
  predicate Fitting(o: Open) {
    match o
    case Root(_) => true
    case Sub(b, _, _) => IsTable(b)
    case Aot(b, _, _) => IsTable(b)
    case Elem(b, _) => b.Aot?
    case Arr(b, name, _) => if b.Arr? then name.Nothing? else HasKeys(b) && name.Just?
    case Itab(b, name, _) => if b.Arr? then name.Nothing? else HasKeys(b) && name.Just?
  }

  predicate Nested(o: Open) {
    Fitting(o) && (o.Root? || Nested(o.below))
  }

  /** The container below once `o` is closed. */
  function Closed(o: Open): (r: Open)
    requires Nested(o) && !o.Root?
    ensures Nested(r)
  {
    assert Nested(o.below);
    match o
    case Sub(b, k, _) => AddEntry(b, Entry(k, Completed(o)))
    case Aot(b, k, _) => AddEntry(b, Entry(k, Completed(o)))
    case Elem(b, _) => Aot(b.below, b.key, b.items + [Completed(o)])
    case Arr(b, name, _) => AddValue(b, name, Completed(o))
    case Itab(b, name, _) => AddValue(b, name, Completed(o))
  }

  /** The effect of a stream; the first operation that is not taken ends it. */
  function Describe(d: Desc, ops: seq<Op>): (r: Outcome)
    requires Nested(d.open)
    ensures r.Next? ==> Nested(r.desc.open)
    decreases |ops|
  {
    if ops == [] then Next(d)
    else
      match OpStep(d, ops[0])
      case Next(d') => Describe(d', ops[1..])
      case Refused(s) => Refused(s)
      case Undescribed(r) => Undescribed(r)
  }
}
