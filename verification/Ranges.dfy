/** Character classes: lists of code point ranges, put in canonical form in
    place and searched by halving. */
module Ranges {

  datatype Range = Range(lo: nat, hi: nat)

  const WORD: nat := 0x1_0000_0000

  predicate Covers(r: Range, c: nat) {
    r.lo <= c <= r.hi
  }

  /** Some range of the list holds `c`: what a class means. */
  predicate InSome(rs: seq<Range>, c: nat) {
    exists k :: 0 <= k < |rs| && Covers(rs[k], c)
  }

  /** Non-empty ranges in order, with no point in two of them. */
  ghost predicate Ascending(rs: seq<Range>) {
    && (forall k :: 0 <= k < |rs| ==> rs[k].lo <= rs[k].hi)
    && (forall a, b :: 0 <= a < b < |rs| ==> rs[a].hi < rs[b].lo)
  }

  ghost predicate Proper(rs: seq<Range>) {
    forall k :: 0 <= k < |rs| ==> rs[k].lo <= rs[k].hi < WORD - 1
  }

  // ----------------------------------------------------------------- search

  /** What halving the window `[lo, hi)` finds. */
  predicate Found(rs: seq<Range>, lo: nat, hi: nat, c: nat)
    requires lo <= hi <= |rs|
    decreases hi - lo
  {
    if lo == hi then false
    else
      var mid := (lo + hi - 1) / 2;
      if c < rs[mid].lo then Found(rs, lo, mid, c)
      else if c > rs[mid].hi then Found(rs, mid + 1, hi, c)
      else true
  }

  /** The class test of the matcher. */
  predicate Hit(rs: seq<Range>, c: nat) {
    Found(rs, 0, |rs|, c)
  }

  method ClassMatch(any: bool, rs: seq<Range>, negated: bool, c: nat) returns (r: bool)
    ensures r == (any || Hit(rs, c) != negated)
    ensures Ascending(rs) ==> r == (any || InSome(rs, c) != negated)
  {
    if any {
      return true;
    }
    var lo, hi := 0, |rs| - 1;
    var found := false;
    while lo <= hi
      invariant 0 <= lo <= hi + 1 <= |rs|
      invariant !found && Found(rs, lo, hi + 1, c) == Hit(rs, c)
    {
      var mid := (lo + hi) / 2;
      if c < rs[mid].lo {
        hi := mid - 1;
      } else if c > rs[mid].hi {
        lo := mid + 1;
      } else {
        found := true;
        break;
      }
    }
    r := if negated then !found else found;
    if Ascending(rs) {
      AscendingIsExact(rs, c);
    }
  }

  /** The search never invents a member. */
  lemma {:induction false} FoundIsThere(rs: seq<Range>, lo: nat, hi: nat, c: nat) returns (k: nat)
    requires lo <= hi <= |rs| && Found(rs, lo, hi, c)
    ensures lo <= k < hi && Covers(rs[k], c)
    decreases hi - lo
  {
    var mid := (lo + hi - 1) / 2;
    if c < rs[mid].lo {
      k := FoundIsThere(rs, lo, mid, c);
    } else if c > rs[mid].hi {
      k := FoundIsThere(rs, mid + 1, hi, c);
    } else {
      k := mid;
    }
  }

  lemma {:induction false} AscendingIsFound(rs: seq<Range>, lo: nat, hi: nat, c: nat, k: nat)
    requires Ascending(rs) && lo <= k < hi <= |rs| && Covers(rs[k], c)
    ensures Found(rs, lo, hi, c)
    decreases hi - lo
  {
    var mid := (lo + hi - 1) / 2;
    if c < rs[mid].lo {
      AscendingIsFound(rs, lo, mid, c, k);
    } else if c > rs[mid].hi {
      AscendingIsFound(rs, mid + 1, hi, c, k);
    }
  }

  lemma {:induction false} AscendingIsExact(rs: seq<Range>, c: nat)
    requires Ascending(rs)
    ensures Hit(rs, c) == InSome(rs, c)
  {
    if Hit(rs, c) {
      var k := FoundIsThere(rs, 0, |rs|, c);
    }
    if InSome(rs, c) {
      var k :| 0 <= k < |rs| && Covers(rs[k], c);
      AscendingIsFound(rs, 0, |rs|, c, k);
    }
  }

  /** Non-empty ranges with no common point, in any order. */
  ghost predicate Disjoint(rs: seq<Range>) {
    && (forall k :: 0 <= k < |rs| ==> rs[k].lo <= rs[k].hi)
    && (forall a, b :: 0 <= a < b < |rs| ==> rs[a].hi < rs[b].lo || rs[b].hi < rs[a].lo)
  }

  /** Every member of a range in the window is found. */
  ghost predicate FindsAll(rs: seq<Range>, lo: nat, hi: nat)
    requires lo <= hi <= |rs|
  {
    forall k, c: nat :: lo <= k < hi && Covers(rs[k], c) ==> Found(rs, lo, hi, c)
  }

  /** For ranges with no common point the search is exact for every code point
      if and only if the ranges ascend. */
  lemma {:induction false} ExactIffAscending(rs: seq<Range>)
    requires Disjoint(rs)
    ensures (forall c: nat :: Hit(rs, c) == InSome(rs, c)) <==> Ascending(rs)
  {
    if Ascending(rs) {
      forall c: nat ensures Hit(rs, c) == InSome(rs, c) {
        AscendingIsExact(rs, c);
      }
    }
    if forall c: nat :: Hit(rs, c) == InSome(rs, c) {
      forall k, c: nat | 0 <= k < |rs| && Covers(rs[k], c) ensures Found(rs, 0, |rs|, c) {
        assert InSome(rs, c) && Hit(rs, c) == InSome(rs, c);
      }
      forall a, b | 0 <= a < b < |rs| ensures rs[a].hi < rs[b].lo {
        FindsAllAscends(rs, 0, |rs|, a, b);
      }
    }
  }

  lemma {:induction false} FindsAllAscends(rs: seq<Range>, lo: nat, hi: nat, a: nat, b: nat)
    requires Disjoint(rs) && lo <= a < b < hi <= |rs| && FindsAll(rs, lo, hi)
    ensures rs[a].hi < rs[b].lo
    decreases hi - lo
  {
    var mid := (lo + hi - 1) / 2;
    if b < mid {
      FindsAllHalves(rs, lo, hi);
      FindsAllAscends(rs, lo, mid, a, b);
    } else if mid < a {
      FindsAllHalves(rs, lo, hi);
      FindsAllAscends(rs, mid + 1, hi, a, b);
    } else {
      assert Covers(rs[a], rs[a].hi) && Covers(rs[b], rs[b].lo);
      TurnsTowards(rs, lo, hi, a, rs[a].hi);
      TurnsTowards(rs, lo, hi, b, rs[b].lo);
    }
  }

  lemma {:induction false} FindsAllHalves(rs: seq<Range>, lo: nat, hi: nat)
    requires Disjoint(rs) && lo < hi <= |rs| && FindsAll(rs, lo, hi)
    ensures var mid := (lo + hi - 1) / 2; FindsAll(rs, lo, mid) && FindsAll(rs, mid + 1, hi)
  {
    var mid := (lo + hi - 1) / 2;
    forall k, c: nat | lo <= k < mid && Covers(rs[k], c) ensures Found(rs, lo, mid, c) {
      TurnsTowards(rs, lo, hi, k, c);
    }
    forall k, c: nat | mid + 1 <= k < hi && Covers(rs[k], c) ensures Found(rs, mid + 1, hi, c) {
      TurnsTowards(rs, lo, hi, k, c);
    }
  }

  /** A search that finds a member of range `k` turns towards `k`. */
  lemma {:induction false} TurnsTowards(rs: seq<Range>, lo: nat, hi: nat, k: nat, c: nat)
    requires Disjoint(rs) && lo <= k < hi <= |rs| && Covers(rs[k], c) && Found(rs, lo, hi, c)
    ensures var mid := (lo + hi - 1) / 2;
            && (k < mid ==> c < rs[mid].lo && Found(rs, lo, mid, c))
            && (k > mid ==> c > rs[mid].hi && Found(rs, mid + 1, hi, c))
  {
    var mid := (lo + hi - 1) / 2;
    if k != mid {
      if c < rs[mid].lo {
        var other := FoundIsThere(rs, lo, mid, c);
      } else if c > rs[mid].hi {
        var other := FoundIsThere(rs, mid + 1, hi, c);
      }
    }
  }

  /** Some point from `l` up to `u` is in the range. */
  predicate HasPoint(r: Range, l: nat, u: nat) {
    var c := Max(l, r.lo);
    c <= r.hi && c < u
  }

  function Max(a: nat, b: nat): nat {
    if a < b then b else a
  }

  /** Wherever halving `[lo, hi)` ends without finding a point from `l` up to `u`,
      no range has one of the points that end there: a check on the ranges that
      follows the halving and looks at no point. */
  predicate EndsInGaps(rs: seq<Range>, lo: nat, hi: nat, l: nat, u: nat)
    requires lo <= hi <= |rs|
    decreases hi - lo
  {
    if lo == hi then forall k :: 0 <= k < |rs| ==> !HasPoint(rs[k], l, u)
    else
      var mid := (lo + hi - 1) / 2;
      && EndsInGaps(rs, lo, mid, l, if u < rs[mid].lo then u else rs[mid].lo)
      && EndsInGaps(rs, mid + 1, hi, Max(l, Max(rs[mid].lo, rs[mid].hi + 1)), u)
  }

  /** Every member of the class from `l` up to `u` is found. */
  ghost predicate FindsBetween(rs: seq<Range>, lo: nat, hi: nat, l: nat, u: nat)
    requires lo <= hi <= |rs|
  {
    forall c: nat :: l <= c < u && InSome(rs, c) ==> Found(rs, lo, hi, c)
  }

  lemma {:induction false} FindsBetweenIff(rs: seq<Range>, lo: nat, hi: nat, l: nat, u: nat)
    requires lo <= hi <= |rs|
    ensures FindsBetween(rs, lo, hi, l, u) <==> EndsInGaps(rs, lo, hi, l, u)
    decreases hi - lo
  {
    if lo == hi {
      forall k | 0 <= k < |rs| && HasPoint(rs[k], l, u) ensures !FindsBetween(rs, lo, hi, l, u) {
        assert Covers(rs[k], Max(l, rs[k].lo));
        assert InSome(rs, Max(l, rs[k].lo));
      }
    } else {
      var mid := (lo + hi - 1) / 2;
      var below, above := if u < rs[mid].lo then u else rs[mid].lo, Max(l, Max(rs[mid].lo, rs[mid].hi + 1));
      FindsBetweenIff(rs, lo, mid, l, below);
      FindsBetweenIff(rs, mid + 1, hi, above, u);
      hide InSome, EndsInGaps;
      FindsBetweenHalves(rs, lo, hi, l, u, below, above);
    }
  }

  lemma {:induction false} FindsBetweenHalves(rs: seq<Range>, lo: nat, hi: nat, l: nat, u: nat, below: nat, above: nat)
    requires lo < hi <= |rs|
    requires var r := rs[(lo + hi - 1) / 2];
             below == (if u < r.lo then u else r.lo) && above == Max(l, Max(r.lo, r.hi + 1))
    ensures var mid := (lo + hi - 1) / 2;
            FindsBetween(rs, lo, hi, l, u) <==>
              FindsBetween(rs, lo, mid, l, below) && FindsBetween(rs, mid + 1, hi, above, u)
  {
    hide InSome;
    var mid := (lo + hi - 1) / 2;
    forall c: nat | l <= c < u
      ensures c < rs[mid].lo ==> c < below && Found(rs, lo, hi, c) == Found(rs, lo, mid, c)
      ensures c >= rs[mid].lo && c > rs[mid].hi ==> c >= above && Found(rs, lo, hi, c) == Found(rs, mid + 1, hi, c)
    {
    }
  }

  /** For any ranges, overlapping or in whatever order, the search is exact for
      every code point if and only if its failures end in gaps. */
  lemma {:induction false} ExactIffEndsInGaps(rs: seq<Range>, top: nat)
    requires forall k :: 0 <= k < |rs| ==> rs[k].hi < top
    ensures (forall c: nat :: Hit(rs, c) == InSome(rs, c)) <==> EndsInGaps(rs, 0, |rs|, 0, top)
  {
    FindsBetweenIff(rs, 0, |rs|, 0, top);
    if EndsInGaps(rs, 0, |rs|, 0, top) {
      forall c: nat ensures Hit(rs, c) == InSome(rs, c) {
        if Hit(rs, c) {
          var k := FoundIsThere(rs, 0, |rs|, c);
        }
      }
    }
    if forall c: nat :: Hit(rs, c) == InSome(rs, c) {
      forall c: nat | c < top && InSome(rs, c) ensures Found(rs, 0, |rs|, c) {
        assert Hit(rs, c) == InSome(rs, c);
      }
    }
  }

  /** The bare `\w` as the pattern parser writes it. */
  const BareWord: seq<Range> := [Range(97, 122), Range(65, 90), Range(48, 57), Range(95, 95)]

  /** The bare `\w` is not in order, and matches no lower-case letter and no
      digit. */
  lemma {:induction false} BareWordMissesLetters(c: nat)
    requires 97 <= c <= 122 || 48 <= c <= 57
    ensures InSome(BareWord, c) && !Hit(BareWord, c)
  {
    if c >= 97 {
      assert Covers(BareWord[0], c);
      assert !Found(BareWord, 4, 4, c);
      assert !Found(BareWord, 3, 4, c);
      assert !Found(BareWord, 2, 4, c);
    } else {
      assert Covers(BareWord[2], c);
      assert !Found(BareWord, 0, 0, c);
      assert !Found(BareWord, 0, 1, c);
    }
  }

  // ------------------------------------------------------------------- sort

  /** Gaps between neighbours: the canonical form. */
  ghost predicate Gapped(rs: seq<Range>) {
    forall a, b :: 0 <= a < b < |rs| ==> rs[a].hi + 1 < rs[b].lo
  }

  ghost predicate SameMembers(rs: seq<Range>, qs: seq<Range>) {
    forall c: nat :: InSome(rs, c) <==> InSome(qs, c)
  }

  /** `was[i]` moved down to position `j`. */
  function Inserted(was: seq<Range>, i: nat, j: nat): (r: seq<Range>)
    requires j <= i < |was|
    ensures |r| == |was|
  {
    was[..j] + [was[i]] + was[j..i] + was[i + 1..]
  }

  lemma {:induction false} InsertedAt(was: seq<Range>, i: nat, j: nat, k: nat)
    requires j <= i < |was| && k < |was|
    ensures Inserted(was, i, j)[k] == if k < j then was[k] else if k == j then was[i] else if k <= i then was[k - 1]
            else was[k]
  {
  }

  lemma {:induction false} InsertedSame(was: seq<Range>, i: nat, j: nat, n: nat)
    requires j <= i < n <= |was|
    ensures var now := Inserted(was, i, j);
            multiset(now[..n]) == multiset(was[..n]) && now[n..] == was[n..]
  {
    var lower, middle, upper := was[..j], was[j..i], was[i + 1..n];
    assert was[..n] == lower + middle + [was[i]] + upper;
    assert Inserted(was, i, j)[..n] == lower + [was[i]] + middle + upper;
    assert Inserted(was, i, j)[n..] == was[n..];
  }

  /** The first `i` ranges are in the order of their lower ends. */
  ghost predicate OrderedTo(rs: seq<Range>, i: nat)
    requires i <= |rs|
  {
    forall a, b :: 0 <= a < b < i ==> rs[a].lo <= rs[b].lo
  }

  lemma {:induction false} InsertedOrdered(was: seq<Range>, i: nat, j: nat)
    requires j <= i < |was| && OrderedTo(was, i)
    requires j > 0 ==> was[j - 1].lo <= was[i].lo
    requires j < i ==> was[j].lo > was[i].lo
    ensures OrderedTo(Inserted(was, i, j), i + 1)
  {
    var now := Inserted(was, i, j);
    forall a, b | 0 <= a < b < i + 1 ensures now[a].lo <= now[b].lo {
      InsertedAt(was, i, j, a);
      InsertedAt(was, i, j, b);
    }
  }

  /** The same ranges in another order have the same members. */
  lemma {:induction false} ReorderedMembers(rs: seq<Range>, qs: seq<Range>)
    requires multiset(rs) == multiset(qs)
    ensures SameMembers(rs, qs) && (Proper(rs) ==> Proper(qs))
  {
    forall c: nat ensures InSome(rs, c) <==> InSome(qs, c) {
      if InSome(rs, c) {
        var k :| 0 <= k < |rs| && Covers(rs[k], c);
        assert rs[k] in multiset(qs);
      }
      if InSome(qs, c) {
        var k :| 0 <= k < |qs| && Covers(qs[k], c);
        assert qs[k] in multiset(rs);
      }
    }
    forall k | 0 <= k < |qs| && Proper(rs) ensures qs[k].lo <= qs[k].hi < WORD - 1 {
      assert qs[k] in multiset(rs);
    }
  }

  /** `was` with a gap at `j`, above which everything up to `i` has moved up. */
  ghost predicate Gap(now: seq<Range>, was: seq<Range>, i: nat, j: nat) {
    && j <= i < |was| == |now|
    && (forall k :: 0 <= k < j ==> now[k] == was[k])
    && (forall k :: j < k <= i ==> now[k] == was[k - 1])
    && (forall k :: i < k < |was| ==> now[k] == was[k])
  }

  lemma {:induction false} GapFilled(now: seq<Range>, was: seq<Range>, i: nat, j: nat)
    requires Gap(now, was, i, j)
    ensures now[j := was[i]] == Inserted(was, i, j)
  {
    var filled := now[j := was[i]];
    forall k | 0 <= k < |was| ensures filled[k] == Inserted(was, i, j)[k] {
      InsertedAt(was, i, j, k);
    }
  }

  /** The inner loop of the insertion sort: range `i` sinks to its place. */
  method Sink(a: array<Range>, i: nat)
    requires 0 < i < a.Length && OrderedTo(a[..], i)
    modifies a
    ensures exists j :: 0 <= j <= i && a[..] == Inserted(old(a[..]), i, j)
    ensures OrderedTo(a[..], i + 1)
  {
    ghost var was := a[..];
    var r := a[i];
    var j := i - 1;
    while j >= 0 && a[j].lo > r.lo
      invariant -1 <= j < i
      invariant Gap(a[..], was, i, j + 1) && (j >= 0 ==> a[j] == was[j])
      invariant j + 1 < i ==> was[j + 1].lo > r.lo
    {
      a[j + 1] := a[j];
      j := j - 1;
    }
    GapFilled(a[..], was, i, j + 1);
    a[j + 1] := r;
    InsertedOrdered(was, i, j + 1);
  }

  method Sort(a: array<Range>, n: nat)
    requires 0 < n <= a.Length && Proper(a[..n])
    modifies a
    ensures OrderedTo(a[..n], n) && Proper(a[..n]) && multiset(a[..n]) == multiset(old(a[..n]))
    ensures a[n..] == old(a[n..])
  {
    var i := 1;
    while i < n
      invariant 1 <= i <= n && OrderedTo(a[..], i)
      invariant multiset(a[..n]) == multiset(old(a[..n])) && a[n..] == old(a[n..])
    {
      ghost var was := a[..];
      Sink(a, i);
      ghost var j :| 0 <= j <= i && a[..] == Inserted(was, i, j);
      InsertedSame(was, i, j, n);
      assert a[..][..n] == a[..n] && was[..n] == was[..n] && a[..][n..] == a[n..];
      i := i + 1;
    }
    ReorderedMembers(old(a[..n]), a[..n]);
  }

  // ------------------------------------------------------------------ merge

  /** The loop of the merge: the first `w + 1` ranges are the canonical form of
      the first `i` of the sorted list. */
  ghost predicate Merged(now: seq<Range>, was: seq<Range>, w: nat, i: nat)
    requires w < i <= |was| == |now|
  {
    && Gapped(now[..w + 1]) && Proper(now[..w + 1])
    && now[i..] == was[i..]
    && SameMembers(now[..w + 1], was[..i])
    && (i < |was| ==> now[w].lo <= was[i].lo)
  }

  /** The list after range `i` is merged into range `w` or put behind it. */
  function MergeNext(now: seq<Range>, w: nat, i: nat): (r: (seq<Range>, nat))
    requires w < i < |now|
    ensures |r.0| == |now| && w <= r.1 <= w + 1
  {
    if now[i].lo <= (now[w].hi + 1) % WORD then
      (now[w := Grown(now[w], now[i])], w)
    else (now[w + 1 := now[i]], w + 1)
  }

  lemma {:induction false} MergeStep(now: seq<Range>, was: seq<Range>, w: nat, i: nat)
    requires w < i < |was| == |now| && OrderedTo(was, |was|) && Proper(was) && Merged(now, was, w, i)
    ensures Merged(MergeNext(now, w, i).0, was, MergeNext(now, w, i).1, i + 1)
  {
    var r, last, done := was[i], now[w], now[..w];
    assert now[i] == now[i..][0] == was[i..][0] && last == now[..w + 1][w];
    assert now[..w + 1] == done + [last] && was[..i + 1] == was[..i] + [r];
    MergeMembers(done, last, r, was[..i]);
    MergeShape(done, last, r);
    hide SameMembers, Gapped, Proper;
    var now' := MergeNext(now, w, i).0;
    if r.lo <= last.hi + 1 {
      assert now'[..w + 1] == done + [Grown(last, r)];
    } else {
      assert now'[..w + 2] == done + [last] + [r];
    }
    assert now'[i + 1..] == was[i + 1..] by {
      assert forall k :: i < k < |now| ==> now'[k] == now[k] == now[i..][k - i];
    }
  }

  /** `last` stretched over `r`. */
  function Grown(last: Range, r: Range): Range {
    Range(last.lo, if r.hi > last.hi then r.hi else last.hi)
  }

  lemma {:induction false} MergeShape(done: seq<Range>, last: Range, r: Range)
    requires Gapped(done + [last]) && Proper(done + [last]) && last.lo <= r.lo <= r.hi < WORD - 1
    ensures r.lo <= last.hi + 1 ==> Gapped(done + [Grown(last, r)]) && Proper(done + [Grown(last, r)])
    ensures r.lo > last.hi + 1 ==> Gapped(done + [last] + [r]) && Proper(done + [last] + [r])
  {
    var before := done + [last];
    assert before[|done|] == last && forall k :: 0 <= k < |done| ==> before[k] == done[k];
  }

  /** The members after one step: the range before grown, or one more range. */
  lemma {:induction false} MergeMembers(done: seq<Range>, last: Range, r: Range, was: seq<Range>)
    requires last.lo <= last.hi && r.lo <= r.hi && last.lo <= r.lo && SameMembers(done + [last], was)
    ensures r.lo <= last.hi + 1 ==> SameMembers(done + [Grown(last, r)], was + [r])
    ensures SameMembers(done + [last] + [r], was + [r])
  {
    var grown := Grown(last, r);
    forall c: nat
      ensures r.lo <= last.hi + 1 ==> (InSome(done + [grown], c) <==> InSome(was + [r], c))
      ensures InSome(done + [last] + [r], c) <==> InSome(was + [r], c)
    {
      InSomeSplit(done, last, c);
      InSomeSplit(done, grown, c);
      InSomeSplit(done + [last], r, c);
      InSomeSplit(was, r, c);
      assert InSome(done + [last], c) <==> InSome(was, c);
    }
  }

  lemma {:induction false} MergeStart(was: seq<Range>)
    requires was != [] && Proper(was) && OrderedTo(was, |was|)
    ensures Merged(was, was, 0, 1)
  {
  }

  lemma {:induction false} InSomeSplit(rs: seq<Range>, r: Range, c: nat)
    ensures InSome(rs + [r], c) <==> InSome(rs, c) || Covers(r, c)
  {
    var all := rs + [r];
    if InSome(rs, c) {
      var k :| 0 <= k < |rs| && Covers(rs[k], c);
      assert Covers(all[k], c);
    }
    if Covers(r, c) {
      assert Covers(all[|rs|], c);
    }
  }

  method Merge(a: array<Range>, n: nat) returns (count: nat)
    requires 0 < n <= a.Length && OrderedTo(a[..n], n) && Proper(a[..n])
    modifies a
    ensures 1 <= count <= n && a[n..] == old(a[n..]) && Merged(a[..n], old(a[..n]), count - 1, n)
  {
    ghost var was := a[..n];
    MergeStart(was);
    hide Merged, OrderedTo, Proper;
    var w := 0;
    var i := 1;
    assert was[..1] == a[..n][..1];
    while i < n
      invariant w < i <= n && a[n..] == old(a[n..])
      invariant Merged(a[..n], was, w, i)
    {
      ghost var now := a[..n];
      MergeStep(now, was, w, i);
      ghost var next := MergeNext(now, w, i);
      assert now[w] == a[w] && now[i] == a[i];
      if a[i].lo <= (a[w].hi + 1) % WORD {
        if a[i].hi > a[w].hi {
          a[w] := Range(a[w].lo, a[i].hi);
        }
      } else {
        w := w + 1;
        a[w] := a[i];
      }
      assert a[..n] == next.0 && w == next.1;
      i := i + 1;
    }
    count := w + 1;
  }

  /** Sorts and merges the ranges of a class in place.  The first `count` are
      then canonical and have the members that all had: an empty list comes out
      with a count of one, its stale first slot. */
  method SortMerge(a: array<Range>, n: nat) returns (count: nat)
    requires n <= a.Length && 0 < a.Length && Proper(a[..n])
    modifies a
    ensures 1 <= count <= a.Length && (n > 0 ==> count <= n)
    ensures n == 0 ==> count == 1 && a[..] == old(a[..])
    ensures n > 0 ==> Gapped(a[..count]) && SameMembers(a[..count], old(a[..n]))
    ensures n > 0 ==> forall c: nat :: Hit(a[..count], c) == InSome(old(a[..n]), c)
  {
    if n == 0 {
      return 1;
    }
    Sort(a, n);
    ghost var was := a[..n];
    count := Merge(a, n);
    assert a[..n][..count] == a[..count] && was[..n] == was;
    ReorderedMembers(was, old(a[..n]));
    MergedIsExact(a[..count], was, old(a[..n]));
  }

  lemma {:induction false} MergedIsExact(now: seq<Range>, was: seq<Range>, first: seq<Range>)
    requires Gapped(now) && Proper(now) && SameMembers(now, was) && SameMembers(was, first)
    ensures SameMembers(now, first) && forall c: nat :: Hit(now, c) == InSome(first, c)
  {
    forall c: nat ensures Hit(now, c) == InSome(now, c) == InSome(first, c) {
      AscendingIsExact(now, c);
      assert InSome(now, c) == InSome(was, c);
    }
  }
}
