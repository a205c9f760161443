/** What a document says, whatever it looks like: which value is found under
    which keys and at which index. */
module Content {
  import opened Document

  /** Every lookup gives the same in both trees: equal scalars, arrays of the same
      kind and length item by item, tables with the same keys value by value.
      The order of entries and how a table came to be make no difference. */
  ghost predicate SameContent(t: Tree, u: Tree)
    decreases t, 1
  {
    match t
    case Leaf(_) => u == t
    case Array(aot, items) =>
      && u.Array? && u.aot == aot && |u.items| == |items|
      && forall i :: 0 <= i < |items| ==> SameContent(items[i], u.items[i])
    case Table(_, es) =>
      && u.Table?
      && forall k: Key :: SameUnder(t, u, k)
  }

  /** Both tables have the key, with the same content under it, or both lack it. */
  ghost predicate SameUnder(t: Tree, u: Tree, k: Key)
    requires t.Table? && u.Table?
    decreases t, 0
  {
    var i, j := IndexOf(t.entries, k), IndexOf(u.entries, k);
    && (i < |t.entries| <==> j < |u.entries|)
    && (i < |t.entries| && j < |u.entries| ==> SameContent(t.entries[i].value, u.entries[j].value))
  }
}
