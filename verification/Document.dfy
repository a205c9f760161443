/** Document trees and the meaning of TOML statements.

    A document is a sequence of statements: `[path]`, `[[path]]` and
    `path = value` lines.  This module gives each statement its effect on a
    tree, branch by branch as the parser's header resolution and dotted-key
    insertion decide it.  Allocation never fails here; characters, comments and
    white space live in other modules. */
module Document {

  type Key = string

  /** How a table came to be; exactly one holds of every table. */
  datatype Flag = Explicit | Implicit | Dotted | Inline

  datatype Scalar = Str(text: string) | Int(i: int) | Bool(b: bool) | Token(text: string)

  datatype Entry = Entry(key: Key, value: Tree)

  datatype Tree =
    | Leaf(scalar: Scalar)
    | Table(flag: Flag, entries: seq<Entry>)
    | Array(aot: bool, items: seq<Tree>)

  datatype Error =
    | NotATable          // "key '...' is not a table"
    | ExtendsInline      // "cannot extend inline table '...'"
    | ExtendsHeader      // "cannot extend table '...' defined by a header"
    | ExtendsPlainArray  // "cannot extend plain array '...'"
    | CorruptAot         // "corrupt array of tables"
    | DuplicateKey       // "duplicate key '...'"
    | RedefinedAsAot     // "cannot redefine '...' as an array of tables"
    | DefinedTwice       // "table '...' defined more than once"

  datatype Result<+T> = Ok(value: T) | Err(error: Error)

  datatype Maybe<+T> = Nothing | Just(value: T)

  const EmptyTable: Tree := Table(Explicit, [])

  /** The position of key `k`, or the number of entries when it is absent. */
  function IndexOf(es: seq<Entry>, k: Key): (i: nat)
    ensures i <= |es|
    ensures i < |es| ==> es[i].key == k
    ensures forall j :: 0 <= j < i ==> es[j].key != k
  {
    if es == [] then 0
    else if es[0].key == k then 0
    else 1 + IndexOf(es[1..], k)
  }

  /** Keys are pairwise different. */
  ghost predicate DistinctKeys(es: seq<Entry>) {
    forall i, j :: 0 <= i < j < |es| ==> es[i].key != es[j].key
  }

  // ------------------------------------------------------------ headers

  /** The table a header path walks into through an entry's value: a table
      that is not inline, or the last element of an array of tables. */
  function Enter(v: Tree): (r: Result<Tree>)
    ensures r.Ok? ==> r.value.Table?
  {
    match v
    case Array(aot, items) =>
      if !aot then Err(ExtendsPlainArray)
      else if items == [] || !items[|items| - 1].Table? then Err(CorruptAot)
      else Ok(items[|items| - 1])
    case Table(flag, _) => if flag.Inline? then Err(ExtendsInline) else Ok(v)
    case Leaf(_) => Err(NotATable)
  }

  /** The entry value once the table `Enter(v)` has become `t`. */
  function Leave(v: Tree, t: Tree): Tree
    requires Enter(v).Ok?
  {
    if v.Array? then v.(items := v.items[|v.items| - 1 := t]) else t
  }

  /** The effect of the last part of a header on the table that holds it. */
  function DefineLast(t: Tree, k: Key, aot: bool): (r: Result<Tree>)
    requires t.Table?
    ensures r.Ok? ==> r.value.Table?
  {
    var i := IndexOf(t.entries, k);
    if i == |t.entries| then
      Ok(t.(entries := t.entries + [Entry(k, if aot then Array(true, [EmptyTable]) else EmptyTable)]))
    else
      var v := t.entries[i].value;
      if aot then
        if v.Array? && v.aot then Ok(SetValue(t, i, v.(items := v.items + [EmptyTable])))
        else Err(RedefinedAsAot)
      else if v.Table? && v.flag.Implicit? then Ok(SetValue(t, i, v.(flag := Explicit)))
      else Err(DefinedTwice)
  }

  function SetValue(t: Tree, i: nat, v: Tree): (r: Tree)
    requires t.Table? && i < |t.entries|
    ensures r.Table?
  {
    t.(entries := t.entries[i := t.entries[i].(value := v)])
  }

  /** The effect of a `[path]` or `[[path]]` line on the table it starts from. */
  function Define(t: Tree, path: seq<Key>, aot: bool): (r: Result<Tree>)
    requires t.Table? && path != []
    ensures r.Ok? ==> r.value.Table?
    decreases |path|
  {
    if |path| == 1 then DefineLast(t, path[0], aot)
    else
      var i := IndexOf(t.entries, path[0]);
      if i == |t.entries| then
        match Define(Table(Implicit, []), path[1..], aot)
        case Ok(child) => Ok(t.(entries := t.entries + [Entry(path[0], child)]))
        case Err(e) => Err(e)
      else
        var v := t.entries[i].value;
        match Enter(v)
        case Err(e) => Err(e)
        case Ok(s) =>
          match Define(s, path[1..], aot)
          case Ok(s') => Ok(SetValue(t, i, Leave(v, s')))
          case Err(e) => Err(e)
  }

  // -------------------------------------------------------- dotted keys

  /** The table a dotted key walks into: one made by a dotted key. */
  function EnterDotted(v: Tree): (r: Result<Tree>)
    ensures r.Ok? ==> r.value.Table?
  {
    if !v.Table? then Err(NotATable)
    else match v.flag
      case Inline => Err(ExtendsInline)
      case Implicit => Err(ExtendsHeader)
      case Explicit => Err(ExtendsHeader)
      case Dotted => Ok(v)
  }

  /** The effect of `path = v` on the table that is current. */
  function Insert(t: Tree, path: seq<Key>, v: Tree): (r: Result<Tree>)
    requires t.Table? && path != []
    ensures r.Ok? ==> r.value.Table?
    decreases |path|
  {
    var i := IndexOf(t.entries, path[0]);
    if |path| == 1 then
      if i < |t.entries| then Err(DuplicateKey)
      else Ok(t.(entries := t.entries + [Entry(path[0], v)]))
    else if i == |t.entries| then
      match Insert(Table(Dotted, []), path[1..], v)
      case Ok(child) => Ok(t.(entries := t.entries + [Entry(path[0], child)]))
      case Err(e) => Err(e)
    else
      match EnterDotted(t.entries[i].value)
      case Err(e) => Err(e)
      case Ok(s) =>
        match Insert(s, path[1..], v)
        case Ok(s') => Ok(SetValue(t, i, s'))
        case Err(e) => Err(e)
  }

  // ------------------------------------------------------------- places

  /** `path` leads from `t` to a table, taking the last element of each array
      of tables on the way. */
  ghost predicate Leads(t: Tree, path: seq<Key>)
    requires t.Table?
    decreases |path|
  {
    path == [] ||
    var i := IndexOf(t.entries, path[0]);
    i < |t.entries| && Enter(t.entries[i].value).Ok? && Leads(Enter(t.entries[i].value).value, path[1..])
  }

  /** The table `path` leads to. */
  ghost function Get(t: Tree, path: seq<Key>): (r: Tree)
    requires t.Table? && Leads(t, path)
    ensures r.Table?
    decreases |path|
  {
    if path == [] then t
    else Get(Enter(t.entries[IndexOf(t.entries, path[0])].value).value, path[1..])
  }

  /** `t` with the table at `path` replaced by `s`. */
  ghost function Put(t: Tree, path: seq<Key>, s: Tree): (r: Tree)
    requires t.Table? && Leads(t, path) && s.Table?
    ensures r.Table?
    decreases |path|
  {
    if path == [] then s
    else
      var i := IndexOf(t.entries, path[0]);
      var v := t.entries[i].value;
      SetValue(t, i, Leave(v, Put(Enter(v).value, path[1..], s)))
  }
}
