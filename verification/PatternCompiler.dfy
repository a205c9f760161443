/** The pattern compiler: walks a syntax tree, appends states and patches their
    slots.  A compiled pattern matches exactly what `Matches` says of the tree
    under the lossy reading, whatever the tree. */
module PatternCompiler {
  import opened Counting
  import opened Ranges
  import opened Regex
  import opened Nfa
  import opened Thompson

  const MAX_STATES: nat := 20000

  // -------------------------------------------------------------------- sizes

  function Times(n: nat, x: nat): nat {
    if n == 0 then 0 else Times(n - 1, x) + x
  }

  /** The number of states a tree compiles to. */
  function Size(r: Re): nat
    requires Parsed(r)
    decreases r, 0
  {
    match r
    case Seq(ps) => SizeOf(ps)
    case Alt(bs) => if |bs| == 1 then Size(bs[0]) else SizeOf(bs) + Splits(|bs|)
    case Quant(c, min, max) =>
      if max == 0 then 0
      else Times(min, Size(c)) + (if max == -1 then 1 + Size(c) else Times(max - min, 1 + Size(c)))
    case _ => 1
  }

  /** The splits that `n` alternatives need. */
  function Splits(n: nat): nat {
    if n <= 2 then 1 else n - 1
  }

  function SizeOf(ps: seq<Re>): nat
    requires forall x :: 0 <= x < |ps| ==> Parsed(ps[x])
    decreases ps, 0
  {
    if ps == [] then 0 else SizeOf(ps[..|ps| - 1]) + Size(ps[|ps| - 1])
  }

  lemma {:induction false} SizeOfPrefix(ps: seq<Re>, n: nat)
    requires n < |ps| && forall x :: 0 <= x < |ps| ==> Parsed(ps[x])
    ensures SizeOf(ps[..n + 1]) == SizeOf(ps[..n]) + Size(ps[n])
    ensures SizeOf(ps[..n + 1]) <= SizeOf(ps)
    decreases |ps| - n
  {
    assert ps[..n + 1][..n] == ps[..n];
    if n + 1 == |ps| {
      assert ps[..n + 1] == ps;
    } else {
      SizeOfPrefix(ps, n + 1);
    }
  }

  lemma {:induction false} TimesGrows(m: nat, n: nat, x: nat)
    requires m <= n
    ensures Times(m, x) <= Times(n, x)
    decreases n
  {
    if m < n {
      TimesGrows(m, n - 1, x);
    }
  }

  /** The trees the compiler does not reject: no unbounded repetition of what
      has no state. */
  predicate Compilable(r: Re) {
    match r
    case Seq(ps) => forall x :: 0 <= x < |ps| ==> Compilable(ps[x])
    case Alt(bs) => forall x :: 0 <= x < |bs| ==> Compilable(bs[x])
    case Quant(c, _, max) => max == 0 || (Compilable(c) && (max == -1 ==> !Eps(c)))
    case _ => true
  }

  /** Patterns without alternatives, options and loops. */
  predicate Linear(r: Re) {
    match r
    case Seq(ps) => forall x :: 0 <= x < |ps| ==> Linear(ps[x])
    case Alt(bs) => |bs| == 1 && Linear(bs[0])
    case Quant(c, min, max) => max == 0 || (max == min && Linear(c))
    case _ => true
  }

  /** A compiled pattern. */
  datatype Program = Program(states: seq<State>, start: nat, match_: nat)

  ghost predicate WellMade(p: Program) {
    && p.start < |p.states| && p.match_ < |p.states|
    && p.states[p.match_].kind.Match? && p.states[p.match_].a == -1 && p.states[p.match_].b == -1
    && Closed(p.states, Span(0, |p.states|))
    && forall q :: 0 <= q < |p.states| && p.states[q].kind.Match? ==> q == p.match_
  }

  /** The program never forks. */
  predicate Straight(p: Program) {
    forall q :: 0 <= q < |p.states| ==> !p.states[q].kind.Split?
  }

  /** The program takes the text from `i` to `j`. */
  ghost predicate Accepts(p: Program, s: Text, i: nat, j: nat) {
    Exits(p.states, [Slot(p.match_, false)], s, p.start, i, j)
  }

  lemma {:induction false} SpanSplits(lo: nat, mid: nat, hi: nat)
    requires lo <= mid <= hi
    ensures Span(lo, mid) + Span(mid, hi) == Span(lo, hi) && Span(lo, mid) !! Span(mid, hi)
  {
  }

  lemma {:induction false} SpanGate(lo: nat, mid: nat, hi: nat)
    requires lo <= mid < hi
    ensures Span(lo, mid) + {mid} + Span(mid + 1, hi) == Span(lo, hi)
    ensures Span(lo, mid) !! Span(mid + 1, hi) && mid !in Span(lo, mid) && mid !in Span(mid + 1, hi)
  {
  }

  /** Appending states leaves a region as it is. */
  lemma {:induction false} KeptByAppending(was: seq<State>, now: seq<State>, region: Region)
    requires |was| <= |now| && now[..|was|] == was && forall q :: q in region ==> q < |was|
    ensures Kept(was, now, region)
  {
    forall q | q in region ensures q < |was| && q < |now| && PatchedAt(was, now, q, [], -1) {
      assert now[q] == now[..|was|][q];
    }
  }

  function Fresh(kind: Kind): State {
    State(kind, false, [], false, -1, -1)
  }

  /** A one-state fragment for a leaf or an anchor. */
  lemma {:induction false} Single(states: seq<State>, q: nat, r: Re)
    requires q < |states| && states[q].a == -1 && states[q].b == -1 && Parsed(r)
    requires if r.Edge? then states[q].kind == EdgeState(r.anchor)
             else IsLeaf(r) && states[q].kind.CharState? && states[q].any == r.AnyChr?
                  && states[q].ranges == LeafRanges(r) && states[q].negated == (r.Class? && r.negated)
    ensures Fragment(states, {q}, q, [Slot(q, false)], r)
  {
    forall s: Text, i: nat, j: nat ensures Exits(states, [Slot(q, false)], s, q, i, j) <==> Matches(r, true, s, i, j) {
      OneState(states, [Slot(q, false)], s, q, i, j);
      if i < |s| && r.Chr? {
        LetterHits(r.cp, r.bothCases, s[i]);
      }
      assert Slot(q, false) in [Slot(q, false)] && Slot(q, true) !in [Slot(q, false)];
    }
  }

  /** The ranges stored for a letter hit it, and its capital where both cases
      are asked for. */
  lemma {:induction false} LetterHits(cp: nat, both: bool, c: nat)
    requires Parsed(Chr(cp, both))
    ensures Hit(LeafRanges(Chr(cp, both)), c) <==> Meets(Chr(cp, both), c)
  {
    var rs := LeafRanges(Chr(cp, both));
    AscendingIsExact(rs, c);
    if both {
      assert Covers(rs[0], c) || Covers(rs[1], c) <==> c == cp - 32 || c == cp;
      if c == cp - 32 {
        assert Covers(rs[0], c);
      }
      if c == cp {
        assert Covers(rs[1], c);
      }
    } else {
      assert Covers(rs[0], c) <==> c == cp;
    }
  }

  lemma {:induction false} SingleAlternative(states: seq<State>, region: Region, entry: int, tail: Tail, b: Re)
    requires Fragment(states, region, entry, tail, b)
    ensures Fragment(states, region, entry, tail, Alt([b]))
  {
    forall s: Text, i: nat, j: nat ensures Matches(Alt([b]), true, s, i, j) <==> Matches(b, true, s, i, j) {
      assert [] + [b] == [b];
      AltSnoc([], b, s, i, j);
    }
  }

  /** Threading a tail changes its own region only. */
  lemma {:induction false} ThreadedElsewhere(was: seq<State>, now: seq<State>, own: Region, region: Region,
                                             tail: Tail, to: int)
    requires |now| == |was| && forall q :: 0 <= q < |was| ==> PatchedAt(was, now, q, tail, to)
    requires Dangling(was, own, tail) && own !! region
    requires forall q :: q in own + region ==> q < |was|
    ensures Patched(was, now, own, tail, to) && Kept(was, now, region)
  {
    forall q | q in region ensures q < |was| && q < |now| && PatchedAt(was, now, q, [], -1) {
      assert q in own + region && q !in own;
      assert PatchedAt(was, now, q, tail, to);
    }
    forall q | q in own ensures q < |was| && q < |now| && PatchedAt(was, now, q, tail, to) {
      assert q in own + region;
    }
  }

  lemma {:induction false} ThreadOne(was: seq<State>, mid: seq<State>, now: seq<State>, q: nat, t: Tail, x: Slot,
                                     to: int)
    requires q < |was| == |mid| == |now| && PatchedAt(was, mid, q, t, to) && PatchedAt(mid, now, q, [x], to)
    ensures PatchedAt(was, now, q, t + [x], to)
  {
  }

  /** Threading a tail of states from `lo` on leaves those before. */
  lemma {:induction false} UntouchedBelow(was: seq<State>, now: seq<State>, lo: nat, tail: Tail, to: int)
    requires lo <= |was| == |now| && forall q :: 0 <= q < |was| ==> PatchedAt(was, now, q, tail, to)
    requires forall x :: x in tail ==> x.state >= lo
    ensures now[..lo] == was[..lo]
  {
    forall q | 0 <= q < lo ensures now[q] == was[q] {
      assert PatchedAt(was, now, q, tail, to);
    }
  }

  /** No state of the region accepts. */
  ghost predicate Plain(states: seq<State>, region: Region) {
    forall q :: q in region ==> q < |states| && !states[q].kind.Match?
  }

  lemma {:induction false} PlainStays(was: seq<State>, now: seq<State>, region: Region, tail: Tail, to: int)
    requires Plain(was, region) && Patched(was, now, region, tail, to)
    ensures Plain(now, region)
  {
    forall q | q in region ensures !now[q].kind.Match? {
      assert PatchedAt(was, now, q, tail, to);
    }
  }

  /** No state of the region forks. */
  ghost predicate Forkless(states: seq<State>, region: Region) {
    forall q :: q in region ==> q < |states| && !states[q].kind.Split?
  }

  lemma {:induction false} ForklessStays(was: seq<State>, now: seq<State>, region: Region, tail: Tail, to: int)
    requires Forkless(was, region) && Patched(was, now, region, tail, to)
    ensures Forkless(now, region)
  {
    forall q | q in region ensures !now[q].kind.Split? {
      assert PatchedAt(was, now, q, tail, to);
    }
  }

  /** The states from `lo` on are a fragment that means `r`. */
  ghost predicate Emitted(states: seq<State>, lo: nat, entry: int, tail: Tail, r: Re) {
    && lo <= |states| && Fragment(states, Span(lo, |states|), entry, tail, r) && Plain(states, Span(lo, |states|))
    && (Linear(r) ==> Forkless(states, Span(lo, |states|)))
  }

  lemma {:induction false} EmittedSlots(states: seq<State>, lo: nat, entry: int, tail: Tail, r: Re)
    requires Emitted(states, lo, entry, tail, r)
    ensures -1 <= entry < |states| && (entry == -1 <==> Eps(r)) && forall x :: x in tail ==> lo <= x.state < |states|
  {
  }

  lemma {:induction false} EmittedParts(states: seq<State>, lo: nat, entry: int, tail: Tail, r: Re)
    requires Emitted(states, lo, entry, tail, r)
    ensures var region := Span(lo, |states|);
            && lo <= |states| && Fragment(states, region, entry, tail, r) && Dangling(states, region, tail)
            && Plain(states, region) && (Linear(r) ==> Forkless(states, region))
  {
  }

  lemma {:induction false} EmittedWhole(states: seq<State>, lo: nat, entry: int, tail: Tail, r: Re)
    requires var region := Span(lo, |states|);
             && lo <= |states| && Fragment(states, region, entry, tail, r)
             && Plain(states, region) && (Linear(r) ==> Forkless(states, region))
    ensures Emitted(states, lo, entry, tail, r)
  {
  }

  ghost predicate Threaded(was: seq<State>, now: seq<State>, tail: Tail, to: int) {
    |now| == |was| && forall q :: 0 <= q < |was| ==> PatchedAt(was, now, q, tail, to)
  }

  lemma {:induction false} JoinedForkless(before: seq<State>, was: seq<State>, now: seq<State>, r1: Region,
                                          r2: Region, tail: Tail, pe: int, x: Re, p: Re, y: Re)
    requires Kept(before, was, r1) && Patched(was, now, r1, tail, pe) && Kept(was, now, r2)
    requires (Linear(x) ==> Forkless(before, r1)) && (Linear(p) ==> Forkless(was, r2))
    requires Linear(y) ==> Linear(x) && Linear(p)
    ensures Linear(y) ==> Forkless(now, r1 + r2)
  {
    if Linear(y) {
      ForklessStays(before, was, r1, [], -1);
      ForklessStays(was, now, r1, tail, pe);
      ForklessStays(was, now, r2, [], -1);
    }
  }

  /** A second fragment is emitted behind a first, and the first threaded to it. */
  lemma {:induction false} Joined(before: seq<State>, was: seq<State>, now: seq<State>, lo: nat, entry: int,
                                  tail: Tail, x: Re,
                                  pe: int, pt: Tail, p: Re, y: Re)
    requires Emitted(before, lo, entry, tail, x) && Emitted(was, |before|, pe, pt, p) && was[..|before|] == before
    requires Threaded(was, now, tail, pe) && Joins(x, p, y) && (Linear(y) ==> Linear(x) && Linear(p))
    ensures Emitted(now, lo, if entry == -1 then pe else entry, pt, y) && now[..lo] == before[..lo]
  {
    hide Emitted, Fragment, PatchedAt, Joins, Linear, Plain, Forkless;
    var r1, r2 := Span(lo, |before|), Span(|before|, |was|);
    EmittedParts(before, lo, entry, tail, x);
    EmittedParts(was, |before|, pe, pt, p);
    KeptByAppending(before, was, r1);
    KeptFragment(before, was, r1, entry, tail, x);
    PlainStays(before, was, r1, [], -1);
    SpanSplits(lo, |before|, |was|);
    ThreadedElsewhere(was, now, r1, r2, tail, pe);
    PlainStays(was, now, r1, tail, pe);
    PlainStays(was, now, r2, [], -1);
    JoinedForkless(before, was, now, r1, r2, tail, pe, x, p, y);
    Sequenced(was, now, r1, entry, tail, x, r2, pe, pt, p, y);
    EmittedWhole(now, lo, if entry == -1 then pe else entry, pt, y);
    UntouchedBelow(was, now, lo, tail, pe);
    assert was[..lo] == was[..|before|][..lo];
  }

  lemma {:induction false} PartJoined(before: seq<State>, was: seq<State>, now: seq<State>, lo: nat, entry: int,
                                      tail: Tail, pe: int, pt: Tail, ps: seq<Re>, i: nat)
    requires i < |ps| && Parsed(Seq(ps)) && Emitted(before, lo, entry, tail, Seq(ps[..i]))
    requires Emitted(was, |before|, pe, pt, ps[i]) && was[..|before|] == before && Threaded(was, now, tail, pe)
    ensures Emitted(now, lo, if entry == -1 then pe else entry, pt, Seq(ps[..i + 1])) && now[..lo] == before[..lo]
  {
    hide Emitted, Threaded, Joins;
    SeqJoins(ps[..i], ps[i]);
    assert ps[..i + 1] == ps[..i] + [ps[i]];
    if Linear(Seq(ps[..i + 1])) {
      assert ps[..i + 1][i] == ps[i] && forall x :: 0 <= x < i ==> ps[..i][x] == ps[..i + 1][x];
    }
    Joined(before, was, now, lo, entry, tail, Seq(ps[..i]), pe, pt, ps[i], Seq(ps[..i + 1]));
  }

  lemma {:induction false} CopyJoined(before: seq<State>, was: seq<State>, now: seq<State>, lo: nat, entry: int,
                                      tail: Tail, pe: int, pt: Tail, c: Re, k: nat)
    requires Parsed(c) && Emitted(before, lo, entry, tail, Quant(c, k, k))
    requires Emitted(was, |before|, pe, pt, c) && was[..|before|] == before && Threaded(was, now, tail, pe)
    ensures Emitted(now, lo, if entry == -1 then pe else entry, pt, Quant(c, k + 1, k + 1))
            && now[..lo] == before[..lo]
  {
    hide Emitted, Threaded, Joins;
    RepeatJoins(c, k);
    Joined(before, was, now, lo, entry, tail, Quant(c, k, k), pe, pt, c, Quant(c, k + 1, k + 1));
  }

  lemma {:induction false} KeptBranching(was: seq<State>, now: seq<State>, region: Region, split: nat, merged: Tail,
                                         open: Tail,
                                         bs: seq<Re>)
    requires Branching(was, region, split, merged, open, bs) && Kept(was, now, region)
    ensures Branching(now, region, split, merged, open, bs)
  {
    forall q | q in region ensures now[q] == was[q] {
      assert PatchedAt(was, now, q, [], -1);
    }
    forall s: Text, i: nat, j: nat, t: Tail ensures Exits(now, t, s, split, i, j) <==> Exits(was, t, s, split, i, j) {
      ExitsElsewhere(was, now, region, t, t, s, split, i, j);
    }
    forall x | x in open ensures ReachedAtOnce(now, split, x) {
      assert ReachedAtOnce(was, split, x);
    }
  }

  lemma {:induction false} OnePatched(was: seq<State>, now: seq<State>, x: Slot, to: int)
    requires x.state < |was| && now == was[x.state := WithTarget(was[x.state], x.isB, to)]
    ensures forall q :: 0 <= q < |was| ==> PatchedAt(was, now, q, [x], to)
  {
  }

  /** The open slots when `i` of `n` alternatives hang. */
  function OpenSlots(prev: nat, i: nat, n: nat): Tail {
    if i == 0 then [Slot(prev, false), Slot(prev, true)]
    else if i < n then [Slot(prev, true)]
    else []
  }

  /** The splits there are when `i` of `n` alternatives hang. */
  function SplitsAt(i: nat, n: nat): nat {
    if i == n then Splits(n) else if i == 0 then 1 else i
  }

  /** The state of the walk over the alternatives, `i` of which hang. */
  ghost predicate Alternatives(states: seq<State>, lo: nat, prev: nat, merged: Tail, i: nat, bs: seq<Re>)
    requires i <= |bs|
  {
    && lo < |states| && Plain(states, Span(lo, |states|))
    && Branching(states, Span(lo, |states|), lo, merged, OpenSlots(prev, i, |bs|), bs[..i])
  }

  /** An emitted alternative `b` waits to be hung; everything from `lo` on is
      either its body or belongs to those that hang. */
  ghost predicate Waiting(states: seq<State>, lo: nat, region: Region, merged: Tail, open: Tail, bs: seq<Re>,
                          body: Region, be: int, bt: Tail, b: Re) {
    && lo <= |states| && region !! body && region + body == Span(lo, |states|) && Plain(states, Span(lo, |states|))
    && Branching(states, region, lo, merged, open, bs)
    && Fragment(states, body, be, bt, b)
  }

  /** An alternative is emitted behind those that hang. */
  lemma {:induction false} BranchEmitted(before: seq<State>, was: seq<State>, lo: nat, prev: nat, merged: Tail,
                                         i: nat, bs: seq<Re>,
                                         be: int, bt: Tail)
    requires i < |bs| && Alternatives(before, lo, prev, merged, i, bs)
    requires Emitted(was, |before|, be, bt, bs[i]) && was[..|before|] == before
    ensures Waiting(was, lo, Span(lo, |before|), merged, OpenSlots(prev, i, |bs|), bs[..i],
                    Span(|before|, |was|), be, bt, bs[i])
    ensures was[..lo] == before[..lo]
  {
    var region := Span(lo, |before|);
    SpanSplits(lo, |before|, |was|);
    KeptByAppending(before, was, region);
    KeptBranching(before, was, region, lo, merged, OpenSlots(prev, i, |bs|), bs[..i]);
    PlainStays(before, was, region, [], -1);
    assert was[..lo] == was[..|before|][..lo];
  }

  /** Hanging a fresh split into the open slot of the last one. */
  lemma {:induction false} SplitAdded(before: seq<State>, now: seq<State>, lo: nat, region: Region, merged: Tail,
                                      prev: nat,
                                      bs: seq<Re>, body: Region, be: int, bt: Tail, b: Re)
    requires Waiting(before, lo, region, merged, [Slot(prev, true)], bs, body, be, bt, b) && prev < |before|
    requires var was := before + [Fresh(Split)]; now == was[prev := was[prev].(b := |before|)]
    ensures Waiting(now, lo, region + {|before|}, merged, [Slot(|before|, false), Slot(|before|, true)], bs, body,
            be, bt, b)
    ensures now[..lo] == before[..lo]
  {
    var x, g, was := Slot(prev, true), |before|, before + [Fresh(Split)];
    KeptByAppending(before, was, region + body);
    KeptBranching(before, was, region, lo, merged, [x], bs);
    KeptFragment(before, was, body, be, bt, b);
    assert x in merged + [x];
    OnePatched(was, now, x, g);
    NextSplit(was, now, region, lo, merged, x, bs, g);
    ThreadedElsewhere(was, now, region, body, [x], g);
    KeptFragment(was, now, body, be, bt, b);
    forall q | q in Span(lo, |now|) ensures !now[q].kind.Match? {
      assert q in region + body || q == g;
    }
  }

  /** The slot that the next alternative is hung into belongs to a split. */
  lemma {:induction false} OpenIsThere(states: seq<State>, lo: nat, region: Region, merged: Tail, open: Tail,
                                       bs: seq<Re>,
                                       body: Region, be: int, bt: Tail, b: Re, x: Slot)
    requires Waiting(states, lo, region, merged, open, bs, body, be, bt, b) && x in open
    ensures lo <= x.state < |states|
  {
    assert x in merged + open;
  }

  /** Hanging an alternative with states. */
  lemma {:induction false} StatedHung(was: seq<State>, now: seq<State>, lo: nat, region: Region, merged: Tail,
                                      x: Slot, open: Tail,
                                      bs: seq<Re>, body: Region, be: int, bt: Tail, b: Re)
    requires Waiting(was, lo, region, merged, [x] + open, bs, body, be, bt, b) && x !in open && be >= 0
    requires x.state < |was| && now == was[x.state := WithTarget(was[x.state], x.isB, be)]
    ensures Branching(now, Span(lo, |now|), lo, merged + bt, open, bs + [b]) && Plain(now, Span(lo, |now|))
    ensures now[..lo] == was[..lo]
  {
    assert x in [x] + open && x in merged + ([x] + open);
    OnePatched(was, now, x, be);
    ThreadedElsewhere(was, now, region, body, [x], be);
    StatedBranch(was, now, region, lo, merged, x, open, bs, b, body, be, bt);
  }

  /** An alternative without states adds its slot to the exits. */
  lemma {:induction false} EmptyHung(states: seq<State>, lo: nat, region: Region, merged: Tail, x: Slot, open: Tail,
                                     bs: seq<Re>, body: Region, bt: Tail, b: Re)
    requires Waiting(states, lo, region, merged, [x] + open, bs, body, -1, bt, b) && x !in open && Parsed(b)
    ensures Branching(states, Span(lo, |states|), lo, merged + [x] + bt, open, bs + [b])
            && Plain(states, Span(lo, |states|))
  {
    EmptyBranch(states, region, lo, merged, x, open, bs, b, body, bt);
  }

  /** The first split, with no alternative yet. */
  lemma {:induction false} AltStarts(before: seq<State>, bs: seq<Re>)
    ensures Alternatives(before + [Fresh(Split)], |before|, |before|, [], 0, bs)
  {
    FirstSplit(before + [Fresh(Split)], |before|);
    assert Span(|before|, |before| + 1) == {|before|} && bs[..0] == [];
  }

  lemma {:induction false} AltDone(states: seq<State>, lo: nat, prev: nat, merged: Tail, bs: seq<Re>)
    requires |bs| != 1 && Alternatives(states, lo, prev, merged, |bs|, bs)
    ensures Emitted(states, lo, lo, merged, Alt(bs))
  {
    assert bs[..|bs|] == bs;
    var open := OpenSlots(prev, |bs|, |bs|);
    forall x | x in merged ensures x in merged + open {
    }
  }

  /** The first `i` of the trees are not rejected. */
  predicate CompilableTo(ps: seq<Re>, i: nat) {
    i <= |ps| && forall x :: 0 <= x < i ==> Compilable(ps[x])
  }

  /** A tree that is rejected or does not fit spoils the whole. */
  lemma {:induction false} PartFails(r: Re, ps: seq<Re>, i: nat, lo: nat)
    requires Parsed(r) && (r == Seq(ps) || (r == Alt(ps) && |ps| > 1)) && i < |ps|
    requires var before := if r.Alt? then SplitsAt(i, |ps|) + (if 0 < i < |ps| - 1 then 1 else 0) else 0;
             !Compilable(ps[i]) || lo + SizeOf(ps[..i]) + before + Size(ps[i]) > MAX_STATES
    ensures !(Compilable(r) && lo + Size(r) <= MAX_STATES)
  {
    SizeOfPrefix(ps, i);
  }

  lemma {:induction false} PartFits(ps: seq<Re>, i: nat)
    requires CompilableTo(ps, i) && i < |ps| && Compilable(ps[i]) && Parsed(Seq(ps))
    ensures CompilableTo(ps, i + 1) && SizeOf(ps[..i + 1]) == SizeOf(ps[..i]) + Size(ps[i])
  {
    SizeOfPrefix(ps, i);
  }

  /** What the compiler does for a split with a body behind the states `before`:
      the split is appended, their tail threaded to it, the body emitted and the
      split's first slot set to the body's entry. */
  ghost predicate GateSteps(before: seq<State>, threaded: seq<State>, was: seq<State>, now: seq<State>, tail: Tail,
                            be: int, bt: Tail, c: Re) {
    var g := |before|;
    && Threaded(before + [Fresh(Split)], threaded, tail, g)
    && g + 1 <= |was| && was[..g + 1] == threaded && Emitted(was, g + 1, be, bt, c)
    && now == was[g := was[g].(a := be)]
  }

  lemma {:induction false} KeptEmitted(was: seq<State>, now: seq<State>, lo: nat, entry: int, tail: Tail, r: Re)
    requires Emitted(was, lo, entry, tail, r) && |now| == |was| && Kept(was, now, Span(lo, |was|))
    ensures Emitted(now, lo, entry, tail, r)
  {
    hide Fragment, PatchedAt, Plain, Forkless, Linear;
    KeptFragment(was, now, Span(lo, |was|), entry, tail, r);
    PlainStays(was, now, Span(lo, |was|), [], -1);
    if Linear(r) {
      ForklessStays(was, now, Span(lo, |was|), [], -1);
    }
  }

  lemma {:induction false} GateBuilt(before: seq<State>, threaded: seq<State>, was: seq<State>, now: seq<State>,
                                     lo: nat,
                                     tail: Tail, be: int, bt: Tail, c: Re)
    requires GateSteps(before, threaded, was, now, tail, be, bt, c)
    requires lo <= |before| && Dangling(before, Span(lo, |before|), tail) && Plain(before, Span(lo, |before|))
    ensures Patched(before, now, Span(lo, |before|), tail, |before|) && Gate(now, |before|, be)
    ensures Emitted(now, |before| + 1, be, bt, c) && Plain(now, Span(lo, |now|)) && now[..lo] == before[..lo]
  {
    hide Fragment, Linear, Forkless;
    var g := |before|;
    EmittedParts(was, g + 1, be, bt, c);
    forall q | 0 <= q < g ensures PatchedAt(before, now, q, tail, g) {
      assert PatchedAt(before + [Fresh(Split)], threaded, q, tail, g) && now[q] == was[..g + 1][q];
    }
    assert PatchedAt(before + [Fresh(Split)], threaded, g, tail, g) && was[g] == was[..g + 1][g];
    var body := Span(g + 1, |now|);
    assert Kept(was, now, body);
    KeptEmitted(was, now, g + 1, be, bt, c);
    forall q | 0 <= q < lo ensures now[q] == before[q] {
      assert PatchedAt(before, now, q, tail, g);
    }
    forall q | q in Span(lo, |now|) ensures !now[q].kind.Match? {
      if q < g {
        assert PatchedAt(before, now, q, tail, g) && q in Span(lo, g);
      } else if q > g {
        assert q in body;
      }
    }
  }

  lemma {:induction false} GateSize(before: seq<State>, threaded: seq<State>, was: seq<State>, now: seq<State>,
                                    tail: Tail, be: int, bt: Tail, c: Re)
    requires GateSteps(before, threaded, was, now, tail, be, bt, c)
    ensures |before| < |now| == |was|
  {
  }

  lemma {:induction false} OptionEmitted(before: seq<State>, threaded: seq<State>, was: seq<State>, now: seq<State>,
                                         lo: nat,
                                         entry: int, tail: Tail, be: int, bt: Tail, c: Re, min: nat, max: nat)
    requires GateSteps(before, threaded, was, now, tail, be, bt, c)
    requires Parsed(c) && min <= max && Emitted(before, lo, entry, tail, Quant(c, min, max))
    ensures Emitted(now, lo, if entry == -1 && be != -1 then |before| else entry, [Slot(|before|, true)] + bt,
                    Quant(c, min, max + 1))
    ensures now[..lo] == before[..lo]
  {
    hide Emitted, Fragment, Patched, Gate, Plain, Forkless;
    var g, y := |before|, Quant(c, min, max + 1);
    EmittedParts(before, lo, entry, tail, Quant(c, min, max));
    GateSize(before, threaded, was, now, tail, be, bt, c);
    hide GateSteps;
    GateBuilt(before, threaded, was, now, lo, tail, be, bt, c);
    EmittedParts(now, g + 1, be, bt, c);
    SpanGate(lo, g, |now|);
    OptionAdded(before, now, Span(lo, g), entry, tail, g, Span(g + 1, |now|), be, bt, c, min, max);
    EmittedWhole(now, lo, if entry == -1 && be != -1 then g else entry, [Slot(g, true)] + bt, y);
  }

  lemma {:induction false} LoopBuiltUp(before: seq<State>, threaded: seq<State>, was: seq<State>, gated: seq<State>,
                                       now: seq<State>,
                                       lo: nat, tail: Tail, be: int, bt: Tail, c: Re)
    requires GateSteps(before, threaded, was, gated, tail, be, bt, c) && Threaded(gated, now, bt, |before|) && be >= 0
    requires lo <= |before| && Dangling(before, Span(lo, |before|), tail) && Plain(before, Span(lo, |before|))
    ensures Loop(gated, now, |before|, Span(|before| + 1, |now|), be, bt, c)
    ensures Patched(before, now, Span(lo, |before|), tail, |before|) && Plain(now, Span(lo, |now|))
            && now[..lo] == before[..lo]
  {
    var g, r1, body := |before|, Span(lo, |before|), Span(|before| + 1, |now|);
    GateBuilt(before, threaded, was, gated, lo, tail, be, bt, c);
    SpanGate(lo, g, |now|);
    ThreadedElsewhere(gated, now, body, r1 + {g}, bt, g);
    forall q | q in r1 + {g} ensures now[q] == gated[q] {
      assert PatchedAt(gated, now, q, [], -1);
    }
    UntouchedBelow(gated, now, lo, bt, g);
    PlainStays(gated, now, body, bt, g);
    PlainStays(gated, now, r1 + {g}, [], -1);
  }

  lemma {:induction false} LoopEmitted(before: seq<State>, threaded: seq<State>, was: seq<State>, gated: seq<State>,
                                       now: seq<State>,
                                       lo: nat, entry: int, tail: Tail, be: int, bt: Tail, c: Re, min: nat)
    requires GateSteps(before, threaded, was, gated, tail, be, bt, c) && Threaded(gated, now, bt, |before|)
    requires Parsed(c) && be >= 0 && !Eps(c) && Emitted(before, lo, entry, tail, Quant(c, min, min))
    ensures Emitted(now, lo, if min >= 1 then entry else |before|, [Slot(|before|, true)], Quant(c, min, -1))
    ensures now[..lo] == before[..lo]
  {
    hide Emitted, Fragment, Loop, Plain, Patched, PatchedAt, Forkless;
    var g, y := |before|, Quant(c, min, -1);
    EmittedParts(before, lo, entry, tail, Quant(c, min, min));
    GateSize(before, threaded, was, gated, tail, be, bt, c);
    hide GateSteps;
    LoopBuiltUp(before, threaded, was, gated, now, lo, tail, be, bt, c);
    SpanGate(lo, g, |now|);
    LoopAdded(before, gated, now, Span(lo, g), entry, tail, g, Span(g + 1, |now|), be, bt, c, min);
    EmittedWhole(now, lo, if min >= 1 then entry else g, [Slot(g, true)], y);
  }

  /** Nothing emitted: the fragment of no repetition. */
  lemma {:induction false} NothingEmitted(states: seq<State>, r: Re)
    requires Eps(r)
    ensures Emitted(states, |states|, -1, [], r)
  {
  }

  class Compiler {
    var states: seq<State>

    constructor ()
      ensures states == []
    {
      states := [];
    }

    /** A fresh state, or -1 when there are too many. */
    method NewState(kind: Kind) returns (q: int)
      modifies this
      ensures q == if |old(states)| >= MAX_STATES then -1 else |old(states)|
      ensures states == if q == -1 then old(states) else old(states) + [Fresh(kind)]
    {
      if |states| >= MAX_STATES {
        return -1;
      }
      q := |states|;
      states := states + [Fresh(kind)];
    }

    /** Patches every slot of the tail. */
    method Thread(tail: Tail, to: int)
      requires forall x :: x in tail ==> x.state < |states|
      modifies this
      ensures Threaded(old(states), states, tail, to)
    {
      var i := 0;
      while i < |tail|
        invariant 0 <= i <= |tail| && |states| == |old(states)|
        invariant forall q :: 0 <= q < |states| ==> PatchedAt(old(states), states, q, tail[..i], to)
      {
        var x := tail[i];
        assert tail[..i + 1] == tail[..i] + [x];
        ghost var mid := states;
        states := states[x.state := WithTarget(states[x.state], x.isB, to)];
        OnePatched(mid, states, x, to);
        ghost var t := tail[..i + 1];
        forall q | 0 <= q < |states| ensures PatchedAt(old(states), states, q, t, to) {
          ThreadOne(old(states), mid, states, q, tail[..i], x, to);
        }
        i := i + 1;
      }
      assert tail[..i] == tail;
    }

    /** Compiles one tree into a fragment behind the states there are. */
    method EmitNode(r: Re) returns (ok: bool, entry: int, tail: Tail)
      requires Parsed(r) && |states| <= MAX_STATES
      modifies this
      ensures |old(states)| <= |states| <= MAX_STATES && states[..|old(states)|] == old(states)
      ensures ok <==> Compilable(r) && |old(states)| + Size(r) <= MAX_STATES
      ensures ok ==> |states| == |old(states)| + Size(r)
                     && Emitted(states, |old(states)|, entry, tail, r)
      decreases r, 0
    {
      if r.Seq? {
        ok, entry, tail := EmitSeq(r);
      } else if r.Alt? && |r.branches| == 1 {
        ok, entry, tail := EmitNode(r.branches[0]);
        if ok {
          SingleAlternative(states, Span(|old(states)|, |states|), entry, tail, r.branches[0]);
          assert r == Alt([r.branches[0]]);
        }
      } else if r.Alt? {
        ok, entry, tail := EmitAlt(r);
      } else if r.Quant? {
        ok, entry, tail := EmitQuant(r);
      } else {
        ok, entry, tail := EmitOne(r);
      }
    }

    method EmitOne(r: Re) returns (ok: bool, entry: int, tail: Tail)
      requires Parsed(r) && (r.Edge? || IsLeaf(r)) && |states| <= MAX_STATES
      modifies this
      ensures |old(states)| <= |states| <= MAX_STATES && states[..|old(states)|] == old(states)
      ensures ok <==> |old(states)| + 1 <= MAX_STATES
      ensures ok ==> |states| == |old(states)| + 1 && Emitted(states, |old(states)|, entry, tail, r)
    {
      var q := NewState(if r.Edge? then EdgeState(r.anchor) else CharState);
      if q < 0 {
        return false, -1, [];
      }
      if !r.Edge? {
        states := states[q := states[q].(any := r.AnyChr?, ranges := LeafRanges(r), negated := r.Class? && r.negated)];
      }
      ok, entry, tail := true, q, [Slot(q, false)];
      Single(states, q, r);
      assert Span(|old(states)|, |states|) == {q as nat};
    }

    method EmitSeq(r: Re) returns (ok: bool, entry: int, tail: Tail)
      requires Parsed(r) && r.Seq? && |states| <= MAX_STATES
      modifies this
      ensures |old(states)| <= |states| <= MAX_STATES && states[..|old(states)|] == old(states)
      ensures ok <==> Compilable(r) && |old(states)| + Size(r) <= MAX_STATES
      ensures ok ==> |states| == |old(states)| + Size(r)
                     && Emitted(states, |old(states)|, entry, tail, r)
      decreases r.parts, 1
    {
      hide Emitted;
      var ps := r.parts;
      ghost var lo := |states|;
      entry, tail := -1, [];
      ok := true;
      var i := 0;
      NothingEmitted(states, Seq(ps[..0]));
      while i < |ps|
        invariant 0 <= i <= |ps| && ok
        invariant lo <= |states| <= MAX_STATES && states[..lo] == old(states)
        invariant |states| == lo + SizeOf(ps[..i]) && CompilableTo(ps, i)
        invariant Emitted(states, lo, entry, tail, Seq(ps[..i]))
      {
        ghost var before := states;
        var done, pe, pt := EmitNode(ps[i]);
        if !done {
          PartFails(r, ps, i, lo);
          return false, -1, [];
        }
        ghost var was := states;
        EmittedSlots(before, lo, entry, tail, Seq(ps[..i]));
        EmittedSlots(was, |before|, pe, pt, ps[i]);
        Thread(tail, pe);
        PartJoined(before, was, states, lo, entry, tail, pe, pt, ps, i);
        if pe >= 0 && entry < 0 {
          entry := pe;
        }
        tail := pt;
        PartFits(ps, i);
        i := i + 1;
      }
      assert ps[..i] == ps;
    }

    /** One more alternative: emitted, then hung into the open slot, behind a
        split of its own unless it is the first or the last. */
    method EmitBranch(bs: seq<Re>, i: nat, prev: nat, merged: Tail, ghost lo: nat)
        returns (ok: bool, prev': nat, merged': Tail)
      requires i < |bs| != 1 && Parsed(Alt(bs)) && |states| <= MAX_STATES
      requires Alternatives(states, lo, prev, merged, i, bs)
      modifies this
      ensures |old(states)| <= |states| <= MAX_STATES && lo <= |states| && states[..lo] == old(states)[..lo]
      ensures var size := |old(states)| + Size(bs[i]) + (if 0 < i < |bs| - 1 then 1 else 0);
              && (ok <==> Compilable(bs[i]) && size <= MAX_STATES)
              && (ok ==> |states| == size && Alternatives(states, lo, prev', merged', i + 1, bs))
      decreases bs, 0
    {
      hide Emitted, Waiting, Branching, Plain;
      ghost var before := states;
      ghost var region, mid := Span(lo, |states|), |states|;
      prev', merged' := prev, merged;
      var be, bt;
      ok, be, bt := EmitNode(bs[i]);
      if !ok {
        assert states[..lo] == states[..mid][..lo];
        return;
      }
      ghost var body := Span(mid, |states|);
      EmittedSlots(states, mid, be, bt, bs[i]);
      BranchEmitted(before, states, lo, prev, merged, i, bs, be, bt);
      var x := Slot(prev, i > 0);
      OpenIsThere(states, lo, region, merged, OpenSlots(prev, i, |bs|), bs[..i], body, be, bt, bs[i], x);
      if 0 < i < |bs| - 1 {
        ghost var was := states;
        var g := NewState(Split);
        if g < 0 {
          ok := false;
          return;
        }
        states := states[prev := states[prev].(b := g)];
        SplitAdded(was, states, lo, region, merged, prev, bs[..i], body, be, bt, bs[i]);
        region := region + {g as nat};
        prev' := g;
        x := Slot(g, false);
      }
      ghost var open := OpenSlots(prev', i + 1, |bs|);
      assert [x] + open == if i == |bs| - 1 then [x] else [x, Slot(prev', true)];
      assert bs[..i + 1] == bs[..i] + [bs[i]];
      if be >= 0 {
        ghost var was := states;
        states := states[x.state := WithTarget(states[x.state], x.isB, be)];
        StatedHung(was, states, lo, region, merged, x, open, bs[..i], body, be, bt, bs[i]);
        merged' := merged + bt;
      } else {
        EmptyHung(states, lo, region, merged, x, open, bs[..i], body, bt, bs[i]);
        merged' := merged + [x] + bt;
      }
    }

    method EmitAlt(r: Re) returns (ok: bool, entry: int, tail: Tail)
      requires Parsed(r) && r.Alt? && |r.branches| != 1 && |states| <= MAX_STATES
      modifies this
      ensures |old(states)| <= |states| <= MAX_STATES && states[..|old(states)|] == old(states)
      ensures ok <==> Compilable(r) && |old(states)| + Size(r) <= MAX_STATES
      ensures ok ==> |states| == |old(states)| + Size(r)
                     && Emitted(states, |old(states)|, entry, tail, r)
      decreases r.branches, 1
    {
      hide Emitted, Alternatives;
      var bs := r.branches;
      ghost var lo := |states|;
      var split := NewState(Split);
      if split < 0 {
        return false, -1, [];
      }
      var merged: Tail, prev: nat := [], split;
      AltStarts(old(states), bs);
      var i := 0;
      while i < |bs|
        invariant 0 <= i <= |bs|
        invariant lo < |states| <= MAX_STATES && states[..lo] == old(states)
        invariant |states| == lo + SizeOf(bs[..i]) + SplitsAt(i, |bs|) && CompilableTo(bs, i)
        invariant Alternatives(states, lo, prev, merged, i, bs)
      {
        var done;
        done, prev, merged := EmitBranch(bs, i, prev, merged, lo);
        if !done {
          PartFails(r, bs, i, lo);
          return false, -1, [];
        }
        PartFits(bs, i);
        i := i + 1;
      }
      AltDone(states, lo, prev, merged, bs);
      assert bs[..i] == bs;
      return true, split, merged;
    }

    /** `n` copies, one after the other. */
    method EmitCopies(c: Re, n: nat) returns (ok: bool, entry: int, tail: Tail)
      requires Parsed(c) && |states| <= MAX_STATES
      modifies this
      ensures |old(states)| <= |states| <= MAX_STATES && states[..|old(states)|] == old(states)
      ensures ok <==> (n > 0 ==> Compilable(c)) && |old(states)| + Times(n, Size(c)) <= MAX_STATES
      ensures ok ==> |states| == |old(states)| + Times(n, Size(c))
                     && Emitted(states, |old(states)|, entry, tail, Quant(c, n, n))
      decreases c, 1
    {
      ghost var lo := |states|;
      hide Emitted;
      entry, tail := -1, [];
      NothingEmitted(states, Quant(c, 0, 0));
      var k := 0;
      while k < n
        invariant 0 <= k <= n && lo <= |states| <= MAX_STATES && states[..lo] == old(states)
        invariant |states| == lo + Times(k, Size(c)) && (k > 0 ==> Compilable(c))
        invariant Emitted(states, lo, entry, tail, Quant(c, k, k))
      {
        ghost var before := states;
        TimesGrows(k + 1, n, Size(c));
        var done, pe, pt := EmitNode(c);
        if !done {
          return false, -1, [];
        }
        ghost var was := states;
        EmittedSlots(before, lo, entry, tail, Quant(c, k, k));
        EmittedSlots(was, |before|, pe, pt, c);
        Thread(tail, pe);
        CopyJoined(before, was, states, lo, entry, tail, pe, pt, c, k);
        if entry < 0 {
          entry := pe;
        }
        tail := pt;
        k := k + 1;
      }
      ok := true;
    }

    /** A loop behind `min` copies. */
    method EmitLoop(c: Re, min: nat, e: int, t: Tail, ghost lo: nat) returns (ok: bool, entry: int, tail: Tail)
      requires Parsed(c) && lo <= |states| <= MAX_STATES && Emitted(states, lo, e, t, Quant(c, min, min))
      modifies this
      ensures lo <= |states| <= MAX_STATES && states[..lo] == old(states)[..lo]
      ensures ok <==> Compilable(c) && !Eps(c) && |old(states)| + 1 + Size(c) <= MAX_STATES
      ensures ok ==> |states| == |old(states)| + 1 + Size(c) && Emitted(states, lo, entry, tail, Quant(c, min, -1))
      decreases c, 1
    {
      hide Emitted, PatchedAt;
      entry, tail := -1, [];
      ghost var before := states;
      var split := NewState(Split);
      if split < 0 {
        return false, -1, [];
      }
      EmittedSlots(before, lo, e, t, Quant(c, min, min));
      Thread(t, split);
      ghost var threaded := states;
      UntouchedBelow(before + [Fresh(Split)], threaded, lo, t, split);
      var done, be, bt := EmitNode(c);
      assert states[..lo] == states[..split + 1][..lo];
      if !done {
        return false, -1, [];
      }
      ghost var was := states;
      EmittedSlots(was, split + 1, be, bt, c);
      states := states[split := states[split].(a := be)];
      ghost var gated := states;
      if be < 0 {
        return false, -1, [];
      }
      Thread(bt, split);
      LoopEmitted(before, threaded, was, gated, states, lo, e, t, be, bt, c, min);
      ok, entry, tail := true, if min >= 1 then e else split, [Slot(split, true)];
    }

    /** One optional copy behind those there are. */
    method EmitOption(c: Re, ghost min: nat, ghost max: nat, e: int, t: Tail, ghost lo: nat)
        returns (ok: bool, entry: int, tail: Tail)
      requires Parsed(c) && lo <= |states| <= MAX_STATES && min <= max && Emitted(states, lo, e, t, Quant(c, min, max))
      modifies this
      ensures lo <= |states| <= MAX_STATES && states[..lo] == old(states)[..lo]
      ensures ok <==> Compilable(c) && |old(states)| + 1 + Size(c) <= MAX_STATES
      ensures ok ==> |states| == |old(states)| + 1 + Size(c) && Emitted(states, lo, entry, tail, Quant(c, min, max + 1))
      decreases c, 1
    {
      hide Emitted, PatchedAt;
      entry, tail := -1, [];
      ghost var before := states;
      var split := NewState(Split);
      if split < 0 {
        return false, -1, [];
      }
      EmittedSlots(before, lo, e, t, Quant(c, min, max));
      Thread(t, split);
      ghost var threaded := states;
      UntouchedBelow(before + [Fresh(Split)], threaded, lo, t, split);
      var done, be, bt := EmitNode(c);
      assert states[..lo] == states[..split + 1][..lo];
      if !done {
        return false, -1, [];
      }
      ghost var was := states;
      EmittedSlots(was, split + 1, be, bt, c);
      states := states[split := states[split].(a := be)];
      OptionEmitted(before, threaded, was, states, lo, e, t, be, bt, c, min, max);
      ok, entry, tail := true, if e < 0 && be >= 0 then split else e, [Slot(split, true)] + bt;
    }

    /** `n` optional copies behind `min` mandatory ones. */
    method EmitOptions(c: Re, ghost min: nat, n: nat, e: int, t: Tail, ghost lo: nat)
        returns (ok: bool, entry: int, tail: Tail)
      requires Parsed(c) && lo <= |states| <= MAX_STATES && Emitted(states, lo, e, t, Quant(c, min, min))
      modifies this
      ensures lo <= |states| <= MAX_STATES && states[..lo] == old(states)[..lo]
      ensures ok <==> (n > 0 ==> Compilable(c)) && |old(states)| + Times(n, 1 + Size(c)) <= MAX_STATES
      ensures ok ==>
                && |states| == |old(states)| + Times(n, 1 + Size(c))
                && Emitted(states, lo, entry, tail, Quant(c, min, min + n))
      decreases c, 2
    {
      hide Emitted;
      ok, entry, tail := true, e, t;
      var k := 0;
      while k < n
        invariant 0 <= k <= n && lo <= |states| <= MAX_STATES && states[..lo] == old(states)[..lo] && ok
        invariant |states| == |old(states)| + Times(k, 1 + Size(c)) && (k > 0 ==> Compilable(c))
        invariant Emitted(states, lo, entry, tail, Quant(c, min, min + k))
      {
        TimesGrows(k + 1, n, 1 + Size(c));
        ok, entry, tail := EmitOption(c, min, min + k, entry, tail, lo);
        if !ok {
          return false, -1, [];
        }
        k := k + 1;
      }
    }

    method EmitQuant(r: Re) returns (ok: bool, entry: int, tail: Tail)
      requires Parsed(r) && r.Quant? && |states| <= MAX_STATES
      modifies this
      ensures |old(states)| <= |states| <= MAX_STATES && states[..|old(states)|] == old(states)
      ensures ok <==> Compilable(r) && |old(states)| + Size(r) <= MAX_STATES
      ensures ok ==> |states| == |old(states)| + Size(r)
                     && Emitted(states, |old(states)|, entry, tail, r)
      decreases r.child, 3
    {
      hide Emitted;
      var c, min, max := r.child, r.min, r.max;
      ghost var lo := |states|;
      if max == 0 {
        NothingEmitted(states, r);
        return true, -1, [];
      }
      ok, entry, tail := EmitCopies(c, min);
      if !ok {
        return false, -1, [];
      }
      if max < 0 {
        ok, entry, tail := EmitLoop(c, min, entry, tail, lo);
      } else {
        ok, entry, tail := EmitOptions(c, min, max - min, entry, tail, lo);
      }
    }
  }

  /** Compiles a pattern.  It is refused exactly when it repeats something
      without states for ever or needs too many states; otherwise the program
      takes the text between two positions exactly when the pattern, read
      lossily, matches there. */
  method Compile(r: Re) returns (ok: bool, p: Program)
    requires Parsed(r)
    ensures ok <==> Compilable(r) && Size(r) + 1 <= MAX_STATES
    ensures ok ==> WellMade(p) && |p.states| == Size(r) + 1
    ensures ok ==> forall s: Text, i: nat, j: nat :: Accepts(p, s, i, j) <==> Matches(r, true, s, i, j)
    ensures ok && Linear(r) ==> Straight(p)
  {
    var compiler := new Compiler();
    var entry, tail;
    ok, entry, tail := compiler.EmitNode(r);
    p := Program([], 0, 0);
    if !ok {
      return;
    }
    ghost var before := compiler.states;
    var match_ := compiler.NewState(Match);
    if match_ < 0 {
      ok := false;
      return;
    }
    compiler.Thread(tail, match_);
    p := Program(compiler.states, if entry >= 0 then entry else match_, match_);
    ProgramMade(before, p, entry, tail, r);
  }

  lemma {:induction false} ProgramMade(before: seq<State>, p: Program, entry: int, tail: Tail, r: Re)
    requires Parsed(r) && Emitted(before, 0, entry, tail, r)
    requires Threaded(before + [Fresh(Match)], p.states, tail, |before|)
    requires p.match_ == |before| && p.start == if entry >= 0 then entry else |before|
    ensures WellMade(p) && (Linear(r) ==> Straight(p))
    ensures forall s: Text, i: nat, j: nat :: Accepts(p, s, i, j) <==> Matches(r, true, s, i, j)
  {
    var m, region, all, out := |before|, Span(0, |before|), Span(0, |p.states|), [Slot(|before|, false)];
    forall q | 0 <= q <= m ensures PatchedAt(before + [Fresh(Match)], p.states, q, tail, m) {
    }
    assert PatchedAt(before + [Fresh(Match)], p.states, m, tail, m);
    forall q | q in region ensures PatchedAt(before, p.states, q, tail, m) {
      assert PatchedAt(before + [Fresh(Match)], p.states, q, tail, m);
    }
    forall q | 0 <= q < m ensures !p.states[q].kind.Match? && Inside(p.states[q].a, all) && Inside(p.states[q].b, all) {
      assert q in region && PatchedAt(before, p.states, q, tail, m);
    }
    forall s: Text, i: nat, j: nat ensures Exits(p.states, out, s, p.start, i, j) <==> Matches(r, true, s, i, j) {
      MatchIsLeft(p.states, m, s, i, j);
      if entry < 0 {
        EpsMatches(r, true, s, i, j);
      } else {
        ThreadInto(before, p.states, region, entry, tail, r, m, out, s, i, j);
        forall k: nat ensures Exits(p.states, out, s, m, k, j) <==> k == j {
          MatchIsLeft(p.states, m, s, k, j);
        }
      }
    }
  }

  lemma {:induction false} MatchIsLeft(states: seq<State>, m: nat, s: Text, i: nat, j: nat)
    requires m < |states| && states[m] == Fresh(Match)
    ensures Exits(states, [Slot(m, false)], s, m, i, j) <==> i == j
  {
    OneState(states, [Slot(m, false)], s, m, i, j);
    if i == j {
      assert Slot(m, false) in [Slot(m, false)] && Fires(states[m], false, s, i);
    }
  }

  /** A compiled pattern never takes what the pattern does not match, and takes
      all of it when no sequence loses its tail. */
  lemma {:induction false} CompiledIsFaithful(r: Re, p: Program, s: Text, i: nat, j: nat)
    requires Accepts(p, s, i, j) <==> Matches(r, true, s, i, j)
    ensures Accepts(p, s, i, j) ==> Matches(r, false, s, i, j)
    ensures Clean(r) ==> (Accepts(p, s, i, j) <==> Matches(r, false, s, i, j))
  {
    if Matches(r, true, s, i, j) {
      LossyIsSound(r, s, i, j);
    }
    if Clean(r) && Matches(r, false, s, i, j) {
      CleanIsComplete(r, s, i, j);
    }
  }
}
