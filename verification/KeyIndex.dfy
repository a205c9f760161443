/** The open-addressing index over a table's entries.  Whatever the hash
    function, it answers as a search through the entries in insertion order
    does. */
module KeyIndex {
  import opened Document
  import opened Places
  import opened Counting
  import opened Arithmetic

  type Index = seq<nat>

  // ------------------------------------------------------------------ probing

  /** The `d`-th slot of the walk that starts at `h`. */
  function At(ix: Index, h: nat, d: nat): (s: nat)
    requires d < |ix|
    ensures s < |ix|
  {
    var s := h % |ix| + d;
    if s < |ix| then s else s - |ix|
  }

  /** The walk from `h` passes `d` occupied slots. */
  predicate Passes(ix: Index, h: nat, d: nat)
    requires d <= |ix|
  {
    forall k :: 0 <= k < d ==> ix[At(ix, h, k)] != 0
  }

  /** The walk from `h` first meets an empty slot after `d` steps. */
  predicate FreeAfter(ix: Index, h: nat, d: nat) {
    d < |ix| && Passes(ix, h, d) && ix[At(ix, h, d)] == 0
  }

  predicate HasFree(ix: Index) {
    exists s :: 0 <= s < |ix| && ix[s] == 0
  }

  /** The next slot of the walk, as the code steps to it. */
  lemma {:induction false} NextSlot(ix: Index, h: nat, d: nat)
    requires d + 1 < |ix|
    ensures (At(ix, h, d) + 1) % |ix| == At(ix, h, d + 1)
  {
    if At(ix, h, d) + 1 == |ix| {
      DivMod(At(ix, h, d) + 1, |ix|, 1, 0);
    } else {
      DivMod(At(ix, h, d) + 1, |ix|, 0, At(ix, h, d) + 1);
    }
  }

  /** How far the walk from `h` to slot `s` is. */
  function Distance(ix: Index, h: nat, s: nat): (d: nat)
    requires s < |ix|
    ensures d < |ix| && At(ix, h, d) == s
  {
    var g := h % |ix|;
    if s >= g then s - g else s + |ix| - g
  }

  /** With an empty slot somewhere every walk meets one within a turn. */
  lemma {:induction false} MeetsFree(ix: Index, h: nat) returns (d: nat)
    requires HasFree(ix)
    ensures FreeAfter(ix, h, d)
  {
    var s :| 0 <= s < |ix| && ix[s] == 0;
    d := 0;
    while ix[At(ix, h, d)] != 0
      invariant d <= Distance(ix, h, s) && Passes(ix, h, d)
      decreases Distance(ix, h, s) - d
    {
      d := d + 1;
    }
  }

  lemma {:induction false} FreeIsOne(ix: Index, h: nat, d: nat, e: nat)
    requires FreeAfter(ix, h, d) && FreeAfter(ix, h, e)
    ensures d == e
  {
  }

  lemma {:induction false} SomeFree(ix: Index, h: nat)
    requires HasFree(ix)
    ensures exists d: nat :: FreeAfter(ix, h, d)
  {
    var d := MeetsFree(ix, h);
  }

  /** The empty slot the walk from `h` stops at. */
  ghost function FreeSlot(ix: Index, h: nat): (s: nat)
    requires HasFree(ix)
    ensures s < |ix| && ix[s] == 0 && exists d: nat :: FreeAfter(ix, h, d) && s == At(ix, h, d)
  {
    SomeFree(ix, h);
    var d: nat :| FreeAfter(ix, h, d);
    At(ix, h, d)
  }

  lemma {:induction false} FreeSlotIs(ix: Index, h: nat, d: nat)
    requires FreeAfter(ix, h, d)
    ensures HasFree(ix) && FreeSlot(ix, h) == At(ix, h, d)
  {
    var e: nat :| FreeAfter(ix, h, e) && FreeSlot(ix, h) == At(ix, h, e);
    FreeIsOne(ix, h, d, e);
  }

  // ---------------------------------------------------------------- the index

  /** Entry `i`, with hash `h`, is at distance `d` of its walk. */
  predicate Placed(ix: Index, h: nat, i: nat, d: nat) {
    d < |ix| && ix[At(ix, h, d)] == i + 1 && Passes(ix, h, d)
  }

  ghost predicate IsPlaced(ix: Index, hashes: seq<nat>, i: nat)
    requires i < |hashes|
  {
    exists d: nat :: Placed(ix, hashes[i], i, d)
  }

  /** Every occupied slot stands for an entry, no two for the same, and every
      entry is met by the walk of its hash before an empty slot is. */
  ghost predicate Indexes(ix: Index, hashes: seq<nat>) {
    && ix != []
    && (forall s :: 0 <= s < |ix| ==> ix[s] <= |hashes|)
    && (forall s, t :: 0 <= s < t < |ix| && ix[s] != 0 ==> ix[s] != ix[t])
    && (forall i :: 0 <= i < |hashes| ==> IsPlaced(ix, hashes, i))
  }

  /** More slots than entries: one is empty. */
  lemma {:induction false} RoomIsLeft(ix: Index, hashes: seq<nat>)
    requires Indexes(ix, hashes) && |hashes| < |ix|
    ensures HasFree(ix)
  {
    if !HasFree(ix) {
      forall q | q in ix ensures 1 <= q < |hashes| + 1 {
        var s :| 0 <= s < |ix| && ix[s] == q;
      }
      AtMost(ix, 1, |hashes| + 1);
    }
  }

  /** The index after one more entry with hash `h`. */
  ghost function PutIn(ix: Index, n: nat, h: nat): (r: Index)
    requires HasFree(ix)
    ensures |r| == |ix|
  {
    ix[FreeSlot(ix, h) := n + 1]
  }

  lemma {:induction false} PutIndexes(ix: Index, hashes: seq<nat>, h: nat)
    requires Indexes(ix, hashes) && HasFree(ix)
    ensures Indexes(PutIn(ix, |hashes|, h), hashes + [h])
  {
    var n, s := |hashes|, FreeSlot(ix, h);
    var r, hs := PutIn(ix, n, h), hashes + [h];
    forall i | 0 <= i < n ensures IsPlaced(r, hs, i) {
      assert IsPlaced(ix, hashes, i);
      var d: nat :| Placed(ix, hashes[i], i, d);
      FillKeeps(ix, r, hashes[i], d);
      assert Placed(r, hs[i], i, d);
    }
    var d: nat :| FreeAfter(ix, h, d) && s == At(ix, h, d);
    FillKeeps(ix, r, h, d);
    assert Placed(r, hs[n], n, d);
    assert IsPlaced(r, hs, n);
  }

  /** Filling slots lets walks pass as they did. */
  lemma {:induction false} FillKeeps(ix: Index, r: Index, h: nat, d: nat)
    requires |r| == |ix| && d <= |ix| && Passes(ix, h, d)
    requires forall s :: 0 <= s < |ix| && ix[s] != 0 ==> r[s] != 0
    ensures Passes(r, h, d)
  {
    forall k | 0 <= k < d ensures r[At(r, h, k)] != 0 {
      assert ix[At(ix, h, k)] != 0;
    }
  }

  function Zeros(n: nat): (r: Index)
    ensures |r| == n && forall s :: 0 <= s < n ==> r[s] == 0
  {
    seq(n, _ => 0)
  }

  /** The index built from the first `n` hashes in an empty one. */
  ghost function Built(cap: nat, hashes: seq<nat>, n: nat): (r: Index)
    requires n <= |hashes| && |hashes| < cap
    ensures |r| == cap && Indexes(r, hashes[..n]) && HasFree(r)
  {
    if n == 0 then
      var r := Zeros(cap);
      assert r[0] == 0;
      r
    else
      var before := Built(cap, hashes, n - 1);
      PutIndexes(before, hashes[..n - 1], hashes[n - 1]);
      assert hashes[..n - 1] + [hashes[n - 1]] == hashes[..n];
      RoomIsLeft(PutIn(before, n - 1, hashes[n - 1]), hashes[..n]);
      PutIn(before, n - 1, hashes[n - 1])
  }

  // -------------------------------------------------------------------- load

  /** The index must grow before one more of `len` entries. */
  predicate Crowded(len: nat, cap: nat) {
    (len + 1) * 10 >= cap * 7
  }

  function NextCap(cap: nat): nat {
    if cap == 0 then 16 else cap * 2
  }

  predicate IsPowerOfTwo(n: nat) {
    n == 1 || (n > 1 && n % 2 == 0 && IsPowerOfTwo(n / 2))
  }

  /** Fewer entries than seven tenths of the slots. */
  predicate Loaded(len: nat, cap: nat) {
    if cap == 0 then len == 0 else cap >= 16 && IsPowerOfTwo(cap) && len * 10 < cap * 7
  }

  /** Doubling restores the bound, for the entry to come. */
  lemma {:induction false} GrowthRestoresLoad(len: nat, cap: nat)
    requires Loaded(len, cap)
    ensures var to := if Crowded(len, cap) then NextCap(cap) else cap;
            Loaded(len + 1, to) && len + 1 < to
  {
    assert IsPowerOfTwo(1) && IsPowerOfTwo(2) && IsPowerOfTwo(4) && IsPowerOfTwo(8) && IsPowerOfTwo(16);
    assert cap > 0 ==> (cap * 2) / 2 == cap;
  }

  /** The index after one more entry: rebuilt first when it is crowded. */
  ghost function After(ix: Index, hashes: seq<nat>, h: nat): (r: Index)
    requires Loaded(|hashes|, |ix|) && (ix != [] ==> Indexes(ix, hashes))
    ensures Loaded(|hashes| + 1, |r|) && Indexes(r, hashes + [h])
  {
    var n := |hashes|;
    GrowthRestoresLoad(n, |ix|);
    assert hashes[..n] == hashes;
    var base := if Crowded(n, |ix|) then Built(NextCap(|ix|), hashes, n) else ix;
    RoomIsLeft(base, hashes);
    PutIndexes(base, hashes, h);
    PutIn(base, n, h)
  }

  // ---------------------------------------------------------------- the table

  /** The index the new entry goes into, and what comes of it. */
  lemma {:induction false} Resolved(was: Index, hashes: seq<nat>, base: Index, h: nat)
    requires Loaded(|hashes|, |was|) && (was != [] ==> Indexes(was, hashes))
    requires if Crowded(|hashes|, |was|) then |hashes| < NextCap(|was|)
             && base == Built(NextCap(|was|), hashes, |hashes|)
             else base == was
    ensures HasFree(base) && PutIn(base, |hashes|, h) == After(was, hashes, h)
  {
    GrowthRestoresLoad(|hashes|, |was|);
    assert hashes[..|hashes|] == hashes;
    RoomIsLeft(base, hashes);
  }

  /** The entries with their hashes. */
  ghost predicate Hashed(entries: seq<Entry>, hashes: seq<nat>, hashOf: Key -> nat) {
    && |hashes| == |entries| && DistinctKeys(entries)
    && forall i :: 0 <= i < |entries| ==> hashes[i] == hashOf(entries[i].key)
  }

  lemma {:induction false} Appended(entries: seq<Entry>, hashes: seq<nat>, e: Entry, hashOf: Key -> nat)
    requires Hashed(entries, hashes, hashOf) && IndexOf(entries, e.key) == |entries|
    ensures Hashed(entries + [e], hashes + [hashOf(e.key)], hashOf)
  {
    IndexOfAbsent(entries, e.key);
  }

  class KeyTable {
    const hashOf: Key -> nat
    var entries: seq<Entry>
    var hashes: seq<nat>      // of the entries' keys
    var index: array<nat>     // 0, or an entry's position plus one

    ghost predicate Valid()
      reads this, index
    {
      && Hashed(entries, hashes, hashOf)
      && Loaded(|entries|, index.Length) && (index.Length > 0 ==> Indexes(index[..], hashes))
    }

    constructor (hashOf: Key -> nat)
      ensures Valid() && fresh(index) && entries == []
    {
      this.hashOf := hashOf;
      entries, hashes := [], [];
      index := new nat[0];
    }

    /** Where the walk for `key` is when it has passed `d` slots. */
    lemma {:induction false} WalkedPast(key: Key, d: nat)
      requires Valid() && d < index.Length && Passes(index[..], hashOf(key), d)
      requires forall k :: 0 <= k < d ==> EntryAt(hashOf(key), k).key != key
      ensures index[..][At(index[..], hashOf(key), d)] == 0 ==> IndexOf(entries, key) == |entries|
    {
      var i := IndexOf(entries, key);
      if i < |entries| {
        assert forall k :: 0 <= k < d && index[..][At(index[..], hashOf(key), k)] == i + 1 ==>
               EntryAt(hashOf(key), k) == entries[i];
        assert IsPlaced(index[..], hashes, i);
      }
    }

    /** The entry in the `d`-th slot of the walk from `h`, which is occupied. */
    ghost function EntryAt(h: nat, d: nat): Entry
      reads this, index
      requires Valid() && d < index.Length && index[..][At(index[..], h, d)] != 0
    {
      entries[index[..][At(index[..], h, d)] - 1]
    }

    /** The position of `key`, or the number of entries when it is absent; and
        its hash for a following insert. */
    method FindHash(key: Key) returns (i: nat, h: nat)
      requires Valid()
      ensures i == IndexOf(entries, key) && h == hashOf(key)
    {
      h := hashOf(key);
      if index.Length == 0 {
        return |entries|, h;
      }
      RoomIsLeft(index[..], hashes);
      ghost var free := MeetsFree(index[..], h);
      var slot := h % index.Length;
      ghost var d := 0;
      while true
        invariant d <= free && slot == At(index[..], h, d) && Passes(index[..], h, d)
        invariant forall k :: 0 <= k < d ==> EntryAt(h, k).key != key
        decreases free - d
      {
        var e := index[slot];
        if e == 0 {
          WalkedPast(key, d);
          return |entries|, h;
        }
        if entries[e - 1].key == key {
          IndexOfIs(entries, key, e - 1);
          return e - 1, h;
        }
        assert EntryAt(h, d) == entries[e - 1];
        NextSlot(index[..], h, d);
        slot := (slot + 1) % index.Length;
        d := d + 1;
      }
    }

    /** The same with the hash given; on a miss, also the empty slot at which the
        walk stopped. */
    method ProbeSlot(h: nat, key: Key) returns (found: Maybe<nat>, slot: Maybe<nat>)
      requires Valid() && h == hashOf(key)
      ensures found == var i := IndexOf(entries, key); if i < |entries| then Just(i) else Nothing
      ensures slot.Just? <==> found.Nothing? && index.Length > 0
      ensures slot.Just? ==> HasFree(index[..]) && slot.value == FreeSlot(index[..], h)
    {
      if index.Length == 0 {
        return Nothing, Nothing;
      }
      RoomIsLeft(index[..], hashes);
      ghost var free := MeetsFree(index[..], h);
      var s := h % index.Length;
      ghost var d := 0;
      while index[s] != 0
        invariant d <= free && s == At(index[..], h, d) && Passes(index[..], h, d)
        invariant forall k :: 0 <= k < d ==> EntryAt(h, k).key != key
        decreases free - d
      {
        var e := index[s] - 1;
        if hashes[e] == h && entries[e].key == key {
          IndexOfIs(entries, key, e);
          return Just(e), Nothing;
        }
        assert EntryAt(h, d) == entries[e];
        NextSlot(index[..], h, d);
        s := (s + 1) % index.Length;
        d := d + 1;
      }
      WalkedPast(key, d);
      FreeSlotIs(index[..], h, d);
      return Nothing, Just(s);
    }

    /** Puts entry `n` into the index, at the end of its walk. */
    method IndexInsert(n: nat, h: nat)
      requires HasFree(index[..])
      modifies index
      ensures index[..] == PutIn(old(index[..]), n, h)
    {
      ghost var ix := index[..];
      ghost var free := MeetsFree(ix, h);
      var slot := h % index.Length;
      ghost var d := 0;
      while index[slot] != 0
        invariant d <= free && slot == At(ix, h, d) && Passes(ix, h, d) && index[..] == ix
        decreases free - d
      {
        NextSlot(index[..], h, d);
        slot := (slot + 1) % index.Length;
        d := d + 1;
      }
      FreeSlotIs(ix, h, d);
      index[slot] := n + 1;
    }

    /** A new index of the given size, with every entry put in again. */
    method IndexRebuild(cap: nat)
      requires |hashes| < cap
      modifies this`index
      ensures fresh(index) && index[..] == Built(cap, hashes, |hashes|)
    {
      index := new nat[cap](_ => 0);
      assert index[..] == Zeros(cap);
      var i := 0;
      while i < |hashes|
        invariant 0 <= i <= |hashes| && fresh(index) && index[..] == Built(cap, hashes, i)
      {
        IndexInsert(i, hashes[i]);
        i := i + 1;
      }
    }

    /** Appends an entry.  Whether or not the empty slot was resolved before, the
        index ends up the same: a rebuild drops the slot. */
    method InsertSlot(key: Key, h: nat, value: Tree, given: Maybe<nat>)
      requires Valid() && h == hashOf(key) && IndexOf(entries, key) == |entries|
      requires given.Just? ==> HasFree(index[..]) && given.value == FreeSlot(index[..], h)
      modifies this`entries, this`hashes, this`index, index
      ensures Valid() && entries == old(entries) + [Entry(key, value)]
      ensures index[..] == After(old(index[..]), old(hashes), h)
      ensures index == old(index) || fresh(index)
    {
      var slot := given;
      var n := |entries|;
      ghost var was := index[..];
      if (n + 1) * 10 >= index.Length * 7 {
        var cap := if index.Length > 0 then index.Length * 2 else 16;
        GrowthRestoresLoad(n, index.Length);
        IndexRebuild(cap);
        slot := Nothing;
      }
      ghost var base := index[..];
      Resolved(was, hashes, base, h);
      if slot.Just? {
        index[slot.value] := n + 1;
      } else {
        IndexInsert(n, h);
      }
      assert index[..] == PutIn(base, n, h);
      Appended(entries, hashes, Entry(key, value), hashOf);
      entries := entries + [Entry(key, value)];
      hashes := hashes + [h];
    }

    method Insert(key: Key, value: Tree)
      requires Valid() && IndexOf(entries, key) == |entries|
      modifies this`entries, this`hashes, this`index, index
      ensures Valid() && entries == old(entries) + [Entry(key, value)]
      ensures index[..] == After(old(index[..]), old(hashes), hashOf(key))
    {
      InsertSlot(key, hashOf(key), value, Nothing);
    }
  }

  lemma {:induction false} IndexOfAbsent(es: seq<Entry>, key: Key)
    requires IndexOf(es, key) == |es|
    ensures forall i :: 0 <= i < |es| ==> es[i].key != key
  {
  }
}
