/** Counting different numbers in a range. */
module Counting {

  /** The numbers from `lo` up to `hi`. */
  function Span(lo: nat, hi: nat): (r: set<nat>)
    ensures forall q: nat :: q in r <==> lo <= q < hi
  {
    if lo >= hi then {} else Span(lo, hi - 1) + {hi - 1}
  }

  lemma {:induction false} SpanSize(lo: nat, hi: nat)
    requires lo <= hi
    ensures |Span(lo, hi)| == hi - lo
    decreases hi
  {
    if lo < hi {
      SpanSize(lo, hi - 1);
    }
  }

  ghost predicate Distinct(st: seq<nat>) {
    forall a, b :: 0 <= a < b < |st| ==> st[a] != st[b]
  }

  lemma {:induction false} DistinctMore(st: seq<nat>, t: nat)
    requires Distinct(st) && t !in st
    ensures Distinct(st + [t])
  {
  }

  function Members(st: seq<nat>): set<nat> {
    set q | q in st
  }

  lemma {:induction false} DistinctSize(st: seq<nat>)
    requires Distinct(st)
    ensures |Members(st)| == |st|
  {
    if st != [] {
      var rest, last := st[..|st| - 1], st[|st| - 1];
      DistinctSize(rest);
      assert st == rest + [last];
      assert Members(st) == Members(rest) + {last};
    }
  }

  lemma {:induction false} SubsetSize<T>(a: set<T>, b: set<T>)
    requires a <= b
    ensures |a| <= |b|
  {
    if x :| x in a {
      SubsetSize(a - {x}, b - {x});
    }
  }

  /** Different numbers in a range: no more than it has. */
  lemma {:induction false} AtMost(st: seq<nat>, lo: nat, hi: nat)
    requires Distinct(st) && lo <= hi && forall q :: q in st ==> lo <= q < hi
    ensures |st| <= hi - lo
  {
    SpanSize(lo, hi);
    DistinctSize(st);
    SubsetSize(Members(st), Span(lo, hi));
  }
}
