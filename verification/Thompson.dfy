/** How the fragments of an automaton combine: one after the other, behind a
    gate that may be passed by, and around a loop. */
module Thompson {
  import opened Regex
  import opened Nfa

  /** The region is as it was. */
  ghost predicate Kept(was: seq<State>, now: seq<State>, region: Region) {
    Patched(was, now, region, [], -1)
  }

  lemma {:induction false} KeptFragment(was: seq<State>, now: seq<State>, region: Region, entry: int, tail: Tail, r: Re)
    requires Fragment(was, region, entry, tail, r) && Kept(was, now, region)
    ensures Fragment(now, region, entry, tail, r)
  {
    forall q | q in region ensures now[q] == was[q] {
      assert PatchedAt(was, now, q, [], -1);
    }
    if entry != -1 {
      forall s: Text, i: nat, j: nat ensures Exits(now, tail, s, entry, i, j) <==> Matches(r, true, s, i, j) {
        ExitsElsewhere(was, now, region, tail, tail, s, entry, i, j);
      }
    }
  }

  /** A fragment whose tail is patched: what it means, then what is matched from
      the target on. */
  lemma {:induction false} ThreadInto(was: seq<State>, now: seq<State>, region: Region, entry: nat, tail: Tail, r: Re,
                                      to: int, rest: Tail, s: Text, i: nat, j: nat)
    requires Fragment(was, region, entry, tail, r) && Patched(was, now, region, tail, to)
    requires SameSlots(rest, [], region)
    ensures Exits(now, rest, s, entry, i, j) <==>
            exists k: nat :: Matches(r, true, s, i, k) && Exits(now, rest, s, to, k, j)
  {
    PatchComposes(was, now, region, tail, [], to, rest, s, entry, i, j);
    NoExit(was, region, [], s, entry, i, j);
    if exists k: nat :: Exits(was, tail, s, entry, i, k) && Exits(now, rest, s, to, k, j) {
      var k: nat :| Exits(was, tail, s, entry, i, k) && Exits(now, rest, s, to, k, j);
      assert Matches(r, true, s, i, k);
    }
    if exists k: nat :: Matches(r, true, s, i, k) && Exits(now, rest, s, to, k, j) {
      var k: nat :| Matches(r, true, s, i, k) && Exits(now, rest, s, to, k, j);
      assert Exits(was, tail, s, entry, i, k);
    }
  }

  // ------------------------------------------------------------------ sequence

  /** `y` is `x` with `p` behind it, as the compiler joins them. */
  ghost predicate Joins(x: Re, p: Re, y: Re) {
    && (Eps(y) <==> Eps(x) && Eps(p))
    && forall s: Text, i: nat, j: nat :: JoinsAt(x, p, y, s, i, j)
  }

  ghost predicate JoinsAt(x: Re, p: Re, y: Re, s: Text, i: nat, j: nat) {
    Matches(y, true, s, i, j) <==>
      (if Eps(x) then Matches(p, true, s, i, j)
       else !Eps(p) && exists k: nat :: Matches(x, true, s, i, k) && Matches(p, true, s, k, j))
  }

  lemma {:induction false} SeqJoins(ps: seq<Re>, p: Re)
    requires Parsed(Seq(ps)) && Parsed(p)
    ensures Joins(Seq(ps), p, Seq(ps + [p]))
  {
    var all := ps + [p];
    assert Eps(Seq(all)) <==> Eps(Seq(ps)) && Eps(p) by {
      assert all[|ps|] == p && forall x :: 0 <= x < |ps| ==> all[x] == ps[x];
    }
    forall s: Text, i: nat, j: nat ensures JoinsAt(Seq(ps), p, Seq(all), s, i, j) {
      SeqSnoc(ps, p, s, i, j);
    }
  }

  lemma {:induction false} RepeatJoins(c: Re, n: nat)
    requires Parsed(c)
    ensures Joins(Quant(c, n, n), c, Quant(c, n + 1, n + 1))
  {
    var x, y := Quant(c, n, n), Quant(c, n + 1, n + 1);
    assert Eps(x) <==> n == 0 || Eps(c);
    assert Eps(y) <==> Eps(c);
    forall s: Text, i: nat, j: nat ensures JoinsAt(x, c, y, s, i, j) {
      RepeatSnoc(c, n, s, i, j);
      if Eps(x) {
        EpsMatches(x, true, s, i, i);
        if k: nat :| Matches(x, true, s, i, k) && Matches(c, true, s, k, j) {
          EpsMatches(x, true, s, i, k);
        }
      }
    }
  }

  lemma {:induction false} JoinedClosed(was: seq<State>, now: seq<State>, r1: Region, t1: Tail, r2: Region, e2: int)
    requires Closed(was, r1) && Patched(was, now, r1, t1, e2) && Closed(now, r2) && (e2 == -1 || e2 in r2)
    ensures Closed(now, r1 + r2)
  {
    forall q | q in r1 + r2 ensures q < |now| && Inside(now[q].a, r1 + r2) && Inside(now[q].b, r1 + r2) {
      if q in r1 {
        assert PatchedAt(was, now, q, t1, e2);
      }
    }
  }

  /** Two fragments, the first one's tail patched to the second's entry. */
  lemma {:induction false} Sequenced(was: seq<State>, now: seq<State>, r1: Region, e1: int, t1: Tail, x: Re,
                                     r2: Region, e2: int, t2: Tail, p: Re, y: Re)
    requires Fragment(was, r1, e1, t1, x) && Fragment(was, r2, e2, t2, p) && r1 !! r2
    requires Patched(was, now, r1, t1, e2) && Kept(was, now, r2) && Joins(x, p, y)
    ensures Fragment(now, r1 + r2, if e1 == -1 then e2 else e1, t2, y)
  {
    hide Means, JoinsAt, PatchedAt;
    KeptFragment(was, now, r2, e2, t2, p);
    JoinedClosed(was, now, r1, t1, r2, e2);
    if e1 != -1 {
      SequencedMeans(was, now, r1, e1, t1, x, r2, e2, t2, p, y);
    } else if e2 != -1 {
      JoinedToNothing(now, e2, t2, x, p, y);
    }
  }

  lemma {:induction false} JoinedToNothing(states: seq<State>, entry: int, tail: Tail, x: Re, p: Re, y: Re)
    requires Eps(x) && Joins(x, p, y) && Means(states, entry, tail, p)
    ensures Means(states, entry, tail, y)
  {
    hide Matches, Exits;
    forall s: Text, i: nat, j: nat ensures Exits(states, tail, s, entry, i, j) <==> Matches(y, true, s, i, j) {
      assert JoinsAt(x, p, y, s, i, j);
    }
  }

  lemma {:induction false} SequencedMeans(was: seq<State>, now: seq<State>, r1: Region, e1: nat, t1: Tail, x: Re,
                                          r2: Region, e2: int, t2: Tail, p: Re, y: Re)
    requires Fragment(was, r1, e1, t1, x) && Fragment(now, r2, e2, t2, p) && r1 !! r2
    requires Patched(was, now, r1, t1, e2) && Joins(x, p, y)
    ensures Means(now, e1, t2, y)
  {
    hide Matches, Exits, JoinsAt;
    assert SameSlots(t2, [], r1);
    forall s: Text, i: nat, j: nat ensures Exits(now, t2, s, e1, i, j) <==> Matches(y, true, s, i, j) {
      SequencedAt(was, now, r1, e1, t1, x, e2, t2, p, y, s, i, j);
    }
  }

  lemma {:induction false} SequencedAt(was: seq<State>, now: seq<State>, r1: Region, e1: nat, t1: Tail, x: Re,
                                       e2: int, t2: Tail, p: Re, y: Re, s: Text, i: nat, j: nat)
    requires Fragment(was, r1, e1, t1, x) && Patched(was, now, r1, t1, e2) && SameSlots(t2, [], r1) && Joins(x, p, y)
    requires (e2 == -1 <==> Eps(p)) && (e2 != -1 ==> Means(now, e2, t2, p))
    ensures Exits(now, t2, s, e1, i, j) <==> Matches(y, true, s, i, j)
  {
    ThreadInto(was, now, r1, e1, t1, x, e2, t2, s, i, j);
    assert JoinsAt(x, p, y, s, i, j);
    if Exits(now, t2, s, e1, i, j) {
      var k: nat :| Matches(x, true, s, i, k) && Exits(now, t2, s, e2, k, j);
      var n := SomeRun(now, t2, s, e2, k, j);
      assert Matches(p, true, s, k, j);
    }
    if Matches(y, true, s, i, j) {
      var k: nat :| Matches(x, true, s, i, k) && Matches(p, true, s, k, j);
      assert Exits(now, t2, s, e2, k, j);
    }
  }

  // --------------------------------------------------------------------- gates

  /** A split state leading to `be`, its second slot empty. */
  predicate Gate(states: seq<State>, g: nat, be: int) {
    g < |states| && states[g].kind.Split? && states[g].a == be && states[g].b == -1
  }

  /** Through a gate a body may be matched or passed by. */
  lemma {:induction false} PassOrEnter(now: seq<State>, g: nat, body: Region, be: nat, bt: Tail, c: Re, s: Text,
                                       i: nat, j: nat)
    requires Gate(now, g, be) && g !in body && Fragment(now, body, be, bt, c)
    ensures Exits(now, [Slot(g, true)] + bt, s, g, i, j) <==> i == j || Matches(c, true, s, i, j)
  {
    var out := [Slot(g, true)] + bt;
    ExitsElsewhere(now, now, body, bt, out, s, be, i, j);
    if Exits(now, out, s, g, i, j) {
      var n := SomeRun(now, out, s, g, i, j);
      var isB := FirstSlot(now, out, s, n, g, i, j);
      if n > 0 {
        var next := FirstSlot(now, out, s, n - 1, Target(now[g], isB), i, j);
      }
    }
    if i == j {
      assert LeavesBy(now, out, s, 0, g, true, i, j);
      assert Leaves(now, out, s, 0, g, i, j);
    }
    if Matches(c, true, s, i, j) {
      assert Exits(now, out, s, be, i, j);
      var n := SomeRun(now, out, s, be, i, j);
      assert LeavesBy(now, out, s, n + 1, g, false, i, j);
      assert Leaves(now, out, s, n + 1, g, i, j);
    }
  }

  /** The gate `g` stands behind fragment `x` and before a body `c`, which it
      lets pass by: one more optional repetition. */
  lemma {:induction false} OptionAdded(was: seq<State>, now: seq<State>, r1: Region, e1: int, t1: Tail,
                                       g: nat, body: Region, be: int, bt: Tail, c: Re, min: nat, max: nat)
    requires Parsed(c) && min <= max && Fragment(was, r1, e1, t1, Quant(c, min, max)) && Fragment(now, body, be, bt, c)
    requires Patched(was, now, r1, t1, g) && Gate(now, g, be)
    requires r1 !! body && g !in r1 && g !in body
    ensures Fragment(now, r1 + {g} + body, if e1 == -1 && be != -1 then g
            else e1, [Slot(g, true)] + bt, Quant(c, min, max + 1))
  {
    var all, out, x, y := r1 + {g} + body, [Slot(g, true)] + bt, Quant(c, min, max), Quant(c, min, max + 1);
    forall q | q in all ensures q < |now| && Inside(now[q].a, all) && Inside(now[q].b, all) {
      if q in r1 {
        assert PatchedAt(was, now, q, t1, g);
      }
    }
    if be != -1 {
      forall s: Text, i: nat, j: nat
        ensures Exits(now, out, s, if e1 == -1 then g else e1, i, j) <==> Matches(y, true, s, i, j)
      {
        OptionSnoc(c, min, max, s, i, j);
        if e1 == -1 {
          PassOrEnter(now, g, body, be, bt, c, s, i, j);
          EpsMatches(x, true, s, i, j);
          EpsMatches(x, true, s, i, i);
          if k: nat :| Matches(x, true, s, i, k) && Matches(c, true, s, k, j) {
            EpsMatches(x, true, s, i, k);
          }
        } else {
          ThreadInto(was, now, r1, e1, t1, x, g, out, s, i, j);
          if Exits(now, out, s, e1, i, j) {
            var k: nat :| Matches(x, true, s, i, k) && Exits(now, out, s, g, k, j);
            PassOrEnter(now, g, body, be, bt, c, s, k, j);
          }
          if Matches(y, true, s, i, j) {
            if Matches(x, true, s, i, j) {
              PassOrEnter(now, g, body, be, bt, c, s, j, j);
              assert Exits(now, out, s, g, j, j);
            } else {
              var k: nat :| Matches(x, true, s, i, k) && Matches(c, true, s, k, j);
              PassOrEnter(now, g, body, be, bt, c, s, k, j);
              assert Exits(now, out, s, g, k, j);
            }
          }
        }
      }
    }
  }

  // --------------------------------------------------------------------- loops

  /** A body whose tail leads back to its gate. */
  ghost predicate Loop(was: seq<State>, now: seq<State>, g: nat, body: Region, be: nat, bt: Tail, c: Re) {
    Gate(now, g, be) && g !in body && Fragment(was, body, be, bt, c) && Patched(was, now, body, bt, g)
  }

  /** A run around a loop repeats the body. */
  lemma {:induction false} LoopRun(was: seq<State>, now: seq<State>, g: nat, body: Region, be: nat, bt: Tail, c: Re,
                                   s: Text, n: nat, i: nat, j: nat) returns (m: nat)
    requires Loop(was, now, g, body, be, bt, c) && Leaves(now, [Slot(g, true)], s, n, g, i, j)
    ensures Repeats(c, m, true, s, i, j)
    decreases n
  {
    var out := [Slot(g, true)];
    m := 0;
    var isB := FirstSlot(now, out, s, n, g, i, j);
    if n > 0 {
      var next := FirstSlot(now, out, s, n - 1, Target(now[g], isB), i, j);
      var l, k := SplitRun(was, now, body, bt, [], g, out, s, n - 1, be, i, j);
      NoWayOut(was, body, [], s, n - 1, be, i, j);
      m := LoopRun(was, now, g, body, be, bt, c, s, n - 2 - l, k, j);
      assert Exits(was, bt, s, be, i, k);
      OneRepeat(c, s, i, k);
      RepeatsAdd(c, 1, m, s, i, k, j);
      m := 1 + m;
    }
  }

  lemma {:induction false} OneRepeat(c: Re, s: Text, i: nat, j: nat)
    ensures Repeats(c, 1, true, s, i, j) <==> Matches(c, true, s, i, j)
  {
    assert Repeats(c, 0, true, s, i, i);
    if Repeats(c, 1, true, s, i, j) {
      var k := LastRepeat(c, 1, true, s, i, j);
      assert k == i;
    }
  }

  lemma {:induction false} LoopBuilt(was: seq<State>, now: seq<State>, g: nat, body: Region, be: nat, bt: Tail, c: Re,
                                     s: Text, m: nat, i: nat, j: nat)
    requires Loop(was, now, g, body, be, bt, c) && Repeats(c, m, true, s, i, j)
    ensures Exits(now, [Slot(g, true)], s, g, i, j)
    decreases m
  {
    var out := [Slot(g, true)];
    if m == 0 {
      assert LeavesBy(now, out, s, 0, g, true, i, j);
      assert Leaves(now, out, s, 0, g, i, j);
    } else {
      var k := RepeatsSplit(c, 1, m - 1, s, i, j);
      OneRepeat(c, s, i, k);
      LoopBuilt(was, now, g, body, be, bt, c, s, m - 1, k, j);
      assert Exits(was, bt, s, be, i, k);
      var l := SomeRun(was, bt, s, be, i, k);
      var n := SomeRun(now, out, s, g, k, j);
      JoinRuns(was, now, body, bt, [], g, out, s, l, n, be, i, k, j);
      assert LeavesBy(now, out, s, l + 2 + n, g, false, i, j);
      assert Leaves(now, out, s, l + 2 + n, g, i, j);
    }
  }

  lemma {:induction false} LoopMeans(was: seq<State>, now: seq<State>, g: nat, body: Region, be: nat, bt: Tail, c: Re,
                                     s: Text, i: nat, j: nat)
    requires Loop(was, now, g, body, be, bt, c)
    ensures Exits(now, [Slot(g, true)], s, g, i, j) <==> Matches(Quant(c, 0, -1), true, s, i, j)
  {
    if Exits(now, [Slot(g, true)], s, g, i, j) {
      var n := SomeRun(now, [Slot(g, true)], s, g, i, j);
      var m := LoopRun(was, now, g, body, be, bt, c, s, n, i, j);
    }
    if Matches(Quant(c, 0, -1), true, s, i, j) {
      var m := QuantMeans(Quant(c, 0, -1), s, i, j);
      LoopBuilt(was, now, g, body, be, bt, c, s, m, i, j);
    }
  }

  /** The gate `g` stands behind `min` repetitions and loops over the body. */
  lemma {:induction false} LoopAdded(before: seq<State>, was: seq<State>, now: seq<State>, r1: Region, e1: int,
                                     t1: Tail,
                                     g: nat, body: Region, be: nat, bt: Tail, c: Re, min: nat)
    requires Parsed(c) && !Eps(c) && Fragment(before, r1, e1, t1, Quant(c, min, min))
             && Loop(was, now, g, body, be, bt, c)
    requires Patched(before, now, r1, t1, g)
    requires r1 !! body && g !in r1
    ensures Fragment(now, r1 + {g} + body, if min >= 1 then e1 else g, [Slot(g, true)], Quant(c, min, -1))
  {
    var all, out, x, y := r1 + {g} + body, [Slot(g, true)], Quant(c, min, min), Quant(c, min, -1);
    forall q | q in all ensures q < |now| && Inside(now[q].a, all) && Inside(now[q].b, all) {
      if q in r1 {
        assert PatchedAt(before, now, q, t1, g);
      } else if q in body {
        assert PatchedAt(was, now, q, bt, g);
      }
    }
    forall s: Text, i: nat, j: nat
      ensures Exits(now, out, s, if min >= 1 then e1 else g, i, j) <==> Matches(y, true, s, i, j)
    {
      if min == 0 {
        LoopMeans(was, now, g, body, be, bt, c, s, i, j);
      } else {
        AtLeast(c, min, s, i, j);
        ThreadInto(before, now, r1, e1, t1, x, g, out, s, i, j);
        if Exits(now, out, s, e1, i, j) {
          var k: nat :| Matches(x, true, s, i, k) && Exits(now, out, s, g, k, j);
          LoopMeans(was, now, g, body, be, bt, c, s, k, j);
        }
        if Matches(y, true, s, i, j) {
          var k: nat :| Matches(x, true, s, i, k) && Matches(Quant(c, 0, -1), true, s, k, j);
          LoopMeans(was, now, g, body, be, bt, c, s, k, j);
          assert Exits(now, out, s, g, k, j);
        }
      }
    }
  }

  // -------------------------------------------------------------- alternatives

  /** The alternatives attached so far, `merged` their exits; every slot of
      `open` is reached from the first split at once. */
  ghost predicate Branching(states: seq<State>, region: Region, split: nat, merged: Tail, open: Tail, bs: seq<Re>) {
    && Closed(states, region) && Dangling(states, region, merged + open) && split in region
    && (forall x :: x in open ==> x !in merged)
    && Means(states, split, merged, Alt(bs))
    && forall x :: x in open ==> ReachedAtOnce(states, split, x)
  }

  ghost predicate ReachedAtOnce(states: seq<State>, split: nat, x: Slot) {
    forall s: Text, i: nat, j: nat :: Exits(states, [x], s, split, i, j) <==> i == j
  }

  predicate IsSplit(states: seq<State>, g: nat, a: int, b: int) {
    g < |states| && states[g].kind.Split? && states[g].a == a && states[g].b == b
  }

  lemma {:induction false} EmptySplit(states: seq<State>, g: nat, s: Text, i: nat, j: nat)
    requires IsSplit(states, g, -1, -1)
    ensures Exits(states, [Slot(g, false)], s, g, i, j) <==> i == j
    ensures Exits(states, [Slot(g, true)], s, g, i, j) <==> i == j
  {
    OneState(states, [Slot(g, false)], s, g, i, j);
    OneState(states, [Slot(g, true)], s, g, i, j);
    if i == j {
      assert Slot(g, true) in [Slot(g, true)] && Slot(g, false) in [Slot(g, false)];
      assert Fires(states[g], true, s, i) && Fires(states[g], false, s, i);
    }
  }

  /** A fresh split: no alternative yet, two slots open. */
  lemma {:induction false} FirstSplit(states: seq<State>, g: nat)
    requires IsSplit(states, g, -1, -1)
    ensures Branching(states, {g}, g, [], [Slot(g, false), Slot(g, true)], [])
  {
    forall s: Text, i: nat, j: nat
      ensures !Exits(states, [], s, g, i, j)
      ensures Exits(states, [Slot(g, false)], s, g, i, j) <==> i == j
      ensures Exits(states, [Slot(g, true)], s, g, i, j) <==> i == j
    {
      NoExit(states, {g}, [], s, g, i, j);
      EmptySplit(states, g, s, i, j);
    }
  }

  /** A further split is hung into the last open slot. */
  lemma {:induction false} NextSplit(was: seq<State>, now: seq<State>, region: Region, split: nat, merged: Tail,
                                     x: Slot,
                                     bs: seq<Re>, g: nat)
    requires Branching(was, region, split, merged, [x], bs) && Patched(was, now, region, [x], g)
    requires g !in region && IsSplit(now, g, -1, -1)
    ensures Branching(now, region + {g}, split, merged, [Slot(g, false), Slot(g, true)], bs)
  {
    forall q | q in region ensures q < |now| && Inside(now[q].a, region + {g}) && Inside(now[q].b, region + {g}) {
      assert PatchedAt(was, now, q, [x], g);
    }
    assert Dangling(was, region, [x]);
    forall y | y in merged ensures Target(now[y.state], y.isB) == -1 {
      assert y in merged + [x] && PatchedAt(was, now, y.state, [x], g) && x in [x];
    }
    forall s: Text, i: nat, j: nat ensures Exits(now, merged, s, split, i, j) <==> Matches(Alt(bs), true, s, i, j) {
      PatchComposes(was, now, region, [x], merged, g, merged, s, split, i, j);
      forall k: nat ensures !Exits(now, merged, s, g, k, j) {
        NoExit(now, {g}, merged, s, g, k, j);
      }
      assert Exits(was, merged, s, split, i, j) <==> Matches(Alt(bs), true, s, i, j);
    }
    forall y | y in [Slot(g, false), Slot(g, true)] ensures ReachedAtOnce(now, split, y) {
      forall s: Text, i: nat, j: nat ensures Exits(now, [y], s, split, i, j) <==> i == j {
        PatchComposes(was, now, region, [x], [], g, [y], s, split, i, j);
        NoExit(was, region, [], s, split, i, j);
        assert x in [x] && ReachedAtOnce(was, split, x);
        EmptySplit(now, g, s, i, j);
        if k: nat :| Exits(was, [x], s, split, i, k) && Exits(now, [y], s, g, k, j) {
          EmptySplit(now, g, s, k, j);
        }
        if i == j {
          assert Exits(was, [x], s, split, i, i) && Exits(now, [y], s, g, i, j);
        }
      }
    }
  }

  lemma {:induction false} AltSnoc(bs: seq<Re>, b: Re, s: Text, i: nat, j: nat)
    ensures Matches(Alt(bs + [b]), true, s, i, j) <==> Matches(Alt(bs), true, s, i, j) || Matches(b, true, s, i, j)
  {
    var all := bs + [b];
    if Matches(Alt(all), true, s, i, j) {
      var x :| 0 <= x < |all| && Matches(all[x], true, s, i, j);
      if x < |bs| {
        assert Matches(bs[x], true, s, i, j);
      }
    }
    if Matches(Alt(bs), true, s, i, j) {
      var x :| 0 <= x < |bs| && Matches(bs[x], true, s, i, j);
      assert Matches(all[x], true, s, i, j);
    }
    if Matches(b, true, s, i, j) {
      assert Matches(all[|bs|], true, s, i, j);
    }
  }

  /** An alternative without states: the open slot itself is an exit. */
  lemma {:induction false} EmptyBranch(states: seq<State>, region: Region, split: nat, merged: Tail, x: Slot,
                                       open: Tail,
                                       bs: seq<Re>, b: Re, body: Region, bt: Tail)
    requires Branching(states, region, split, merged, [x] + open, bs) && x !in open
    requires Fragment(states, body, -1, bt, b) && Parsed(b) && body !! region
    ensures Branching(states, region + body, split, merged + [x] + bt, open, bs + [b])
  {
    var merged' := merged + [x] + bt;
    assert x in [x] + open && ReachedAtOnce(states, split, x);
    forall y | y in open ensures y !in merged' && ReachedAtOnce(states, split, y) {
      assert y in [x] + open && y in merged + ([x] + open);
    }
    forall y | y in merged' + open ensures y.state in region + body && y.state < |states|
      && Target(states[y.state], y.isB) == -1 {
      assert y in bt || y in merged + ([x] + open);
    }
    forall s: Text, i: nat, j: nat ensures Exits(states, merged', s, split, i, j) <==>
      Matches(Alt(bs + [b]), true, s, i, j) {
      AltSnoc(bs, b, s, i, j);
      EpsMatches(b, true, s, i, j);
      assert Exits(states, merged, s, split, i, j) <==> Matches(Alt(bs), true, s, i, j);
      assert Exits(states, [x], s, split, i, j) <==> i == j;
      ExitsUnion(states, region, merged, [x], merged', s, split, i, j);
    }
  }

  /** Leaving by either of two tails. */
  lemma {:induction false} ExitsUnion(states: seq<State>, region: Region, t: Tail, u: Tail, all: Tail, s: Text,
                                      q: nat, i: nat, j: nat)
    requires Closed(states, region) && q in region && SameSlots(all, t + u, region)
    ensures Exits(states, all, s, q, i, j) <==> Exits(states, t, s, q, i, j) || Exits(states, u, s, q, i, j)
  {
    if Exits(states, all, s, q, i, j) {
      var n := SomeRun(states, all, s, q, i, j);
      LeavesUnion(states, region, t, u, all, s, n, q, i, j);
    }
    if Exits(states, t, s, q, i, j) {
      var n := SomeRun(states, t, s, q, i, j);
      LeavesUnion(states, region, t, u, all, s, n, q, i, j);
    }
    if Exits(states, u, s, q, i, j) {
      var n := SomeRun(states, u, s, q, i, j);
      LeavesUnion(states, region, t, u, all, s, n, q, i, j);
    }
  }

  lemma {:induction false} LeavesUnion(states: seq<State>, region: Region, t: Tail, u: Tail, all: Tail, s: Text,
                                       n: nat, q: int,
                                       i: nat, j: nat)
    requires Closed(states, region) && Inside(q, region) && SameSlots(all, t + u, region)
    ensures Leaves(states, all, s, n, q, i, j) <==> Leaves(states, t, s, n, q, i, j) || Leaves(states, u, s, n, q, i, j)
    decreases n, 1
  {
    if q != -1 {
      LeavesByUnion(states, region, t, u, all, s, n, q, false, i, j);
      LeavesByUnion(states, region, t, u, all, s, n, q, true, i, j);
    }
  }

  lemma {:induction false} LeavesByUnion(states: seq<State>, region: Region, t: Tail, u: Tail, all: Tail, s: Text,
                                         n: nat, q: nat, isB: bool, i: nat, j: nat)
    requires Closed(states, region) && q in region && SameSlots(all, t + u, region)
    ensures LeavesBy(states, all, s, n, q, isB, i, j) <==>
              LeavesBy(states, t, s, n, q, isB, i, j) || LeavesBy(states, u, s, n, q, isB, i, j)
    decreases n, 0
  {
    hide Leaves;
    if n > 0 {
      LeavesUnion(states, region, t, u, all, s, n - 1, Target(states[q], isB), After(states[q], i), j);
    }
  }

  /** An alternative with states: the open slot is patched to its entry. */
  lemma {:induction false} StatedBranch(was: seq<State>, now: seq<State>, region: Region, split: nat, merged: Tail,
                                        x: Slot,
                                        open: Tail, bs: seq<Re>, b: Re, body: Region, be: nat, bt: Tail)
    requires Branching(was, region, split, merged, [x] + open, bs) && x !in open
    requires Fragment(was, body, be, bt, b) && body !! region
    requires Patched(was, now, region, [x], be) && Kept(was, now, body)
    ensures Branching(now, region + body, split, merged + bt, open, bs + [b])
  {
    var all, merged' := region + body, merged + bt;
    KeptFragment(was, now, body, be, bt, b);
    assert x in [x] + open && ReachedAtOnce(was, split, x) && x in merged + ([x] + open);
    forall q | q in all ensures q < |now| && Inside(now[q].a, all) && Inside(now[q].b, all) {
      if q in region {
        assert PatchedAt(was, now, q, [x], be);
      }
    }
    forall y | y in merged' + open ensures y.state in all && y.state < |now| && Target(now[y.state], y.isB) == -1 {
      if y !in bt {
        assert y in merged + ([x] + open) && PatchedAt(was, now, y.state, [x], be) && y != x;
      }
    }
    forall s: Text, i: nat, j: nat ensures Exits(now, merged', s, split, i, j) <==>
      Matches(Alt(bs + [b]), true, s, i, j) {
      AltSnoc(bs, b, s, i, j);
      Attached(was, now, region, split, x, be, merged, merged', s, i, j);
      ExitsElsewhere(was, now, body, bt, merged', s, be, i, j);
      assert Exits(was, merged, s, split, i, j) <==> Matches(Alt(bs), true, s, i, j);
    }
    forall y | y in open ensures y !in merged' && ReachedAtOnce(now, split, y) {
      assert y in [x] + open && y in merged + ([x] + open) && ReachedAtOnce(was, split, y);
      forall s: Text, i: nat, j: nat ensures Exits(now, [y], s, split, i, j) <==> i == j {
        Attached(was, now, region, split, x, be, [y], [y], s, i, j);
        NoExit(now, body, [y], s, be, i, j);
      }
    }
  }

  /** Patching a slot that is reached at once. */
  lemma {:induction false} Attached(was: seq<State>, now: seq<State>, region: Region, split: nat, x: Slot, to: nat,
                                    rest: Tail, tail: Tail, s: Text, i: nat, j: nat)
    requires Composed(was, now, region, [x], rest, to, tail) && split in region && ReachedAtOnce(was, split, x)
    ensures Exits(now, tail, s, split, i, j) <==> Exits(was, rest, s, split, i, j) || Exits(now, tail, s, to, i, j)
  {
    PatchComposes(was, now, region, [x], rest, to, tail, s, split, i, j);
    if k: nat :| Exits(was, [x], s, split, i, k) && Exits(now, tail, s, to, k, j) {
      assert i == k;
    }
    if Exits(now, tail, s, to, i, j) {
      assert Exits(was, [x], s, split, i, i);
    }
  }
}
