/** Where the runs of a program can stand in a text, with no regard to how a
    search keeps track of them; and when a step that takes the states in their
    order, each target once, still goes everywhere. */
module Reachability {
  import opened Counting
  import opened Regex
  import opened Nfa
  import opened PatternCompiler
  import opened Simulation

  predicate Reads(st: State, c: nat) {
    st.kind.CharState? && Passes(st.any, st.ranges, st.negated, c)
  }

  /** State `i` reads the code point at `pos` and leads to `t`. */
  predicate ReadsTo(p: Program, s: Text, pos: nat, i: nat, t: nat) {
    i < |p.states| && pos < |s| && Reads(p.states[i], s[pos]) && p.states[i].a == t
  }

  /** A run that started at `from` can stand on `q` at `pos`. */
  ghost predicate Reached(p: Program, s: Text, from: nat, pos: nat, q: nat)
    requires from <= pos
    decreases pos, 1
  {
    exists r: nat, n: nat :: Entered(p, s, from, pos, r) && EpsPath(p, s, pos, n, r, q)
  }

  /** ... on `r` first of all at `pos`. */
  ghost predicate Entered(p: Program, s: Text, from: nat, pos: nat, r: nat)
    requires from <= pos
    decreases pos, 0
  {
    if pos == from then r == p.start
    else
      var before := pos - 1;
      exists i: nat :: ReadsTo(p, s, before, i, r) && Reached(p, s, from, before, i)
  }

  /** A reached state has its turn unless a lower one that has its turn reads to
      it. */
  ghost predicate HasTurn(p: Program, s: Text, from: nat, pos: nat, i: nat)
    requires from <= pos
    decreases i
  {
    Reached(p, s, from, pos, i) && forall h: nat :: h < i && ReadsTo(p, s, pos, h, i) ==> !HasTurn(p, s, from, pos, h)
  }

  /** `t` is reached behind `pos` through a state that has its turn. */
  ghost predicate TakenOn(p: Program, s: Text, from: nat, pos: nat, t: nat)
    requires from <= pos
  {
    exists g: nat, u: nat :: HasTurn(p, s, from, pos, g) && ReadsTo(p, s, pos, g, u) && LeadsOn(p, s, pos + 1, u, t)
  }

  ghost predicate LeadsOn(p: Program, s: Text, pos: nat, u: nat, t: nat) {
    exists n: nat :: EpsPath(p, s, pos, n, u, t)
  }

  /** Whatever a reached state reads to is also taken on by one with its turn. */
  ghost predicate TurnsTaken(p: Program, s: Text) {
    forall from: nat, pos: nat, h: nat, t: nat ::
      from <= pos && Reached(p, s, from, pos, h) && ReadsTo(p, s, pos, h, t) ==> TakenOn(p, s, from, pos, t)
  }

  // ---------------------------------------------------------- runs and states

  lemma {:induction false} EpsPathJoin(p: Program, s: Text, pos: nat, m: nat, n: nat, q: int, t: int, r: int)
    requires EpsPath(p, s, pos, m, q, t) && EpsPath(p, s, pos, n, t, r)
    ensures EpsPath(p, s, pos, m + n, q, r)
    decreases m
  {
    if m > 0 {
      var isB := FirstEps(p, s, pos, m, q, t);
      EpsPathJoin(p, s, pos, m - 1, n, Target(p.states[q], isB), t, r);
      assert EpsBy(p, s, pos, m + n, q, isB, r);
    }
  }

  /** A run that could be taken from a reached state could be taken from before
      the steps that reach it. */
  lemma {:induction false} EpsExits(p: Program, s: Text, pos: nat, n: nat, q: int, r: nat, j: nat)
    requires EpsPath(p, s, pos, n, q, r) && Exits(p.states, [Slot(p.match_, false)], s, r, pos, j)
    ensures Exits(p.states, [Slot(p.match_, false)], s, q, pos, j)
    decreases n
  {
    if n > 0 {
      var isB := FirstEps(p, s, pos, n, q, r);
      EpsExits(p, s, pos, n - 1, Target(p.states[q], isB), r, j);
      StepExits(p, s, q, isB, pos, j);
    }
  }

  lemma {:induction false} StepExits(p: Program, s: Text, q: nat, isB: bool, i: nat, j: nat)
    requires q < |p.states| && Fires(p.states[q], isB, s, i)
    requires Exits(p.states, [Slot(p.match_, false)], s, Target(p.states[q], isB), After(p.states[q], i), j)
    ensures Exits(p.states, [Slot(p.match_, false)], s, q, i, j)
  {
    var out := [Slot(p.match_, false)];
    var n := SomeRun(p.states, out, s, Target(p.states[q], isB), After(p.states[q], i), j);
    assert LeavesBy(p.states, out, s, n + 1, q, isB, i, j);
    assert Leaves(p.states, out, s, n + 1, q, i, j);
  }

  lemma {:induction false} ReachedExits(p: Program, s: Text, from: nat, pos: nat, q: nat, j: nat)
    requires from <= pos && Reached(p, s, from, pos, q) && Exits(p.states, [Slot(p.match_, false)], s, q, pos, j)
    ensures Exits(p.states, [Slot(p.match_, false)], s, p.start, from, j)
    decreases pos
  {
    var r: nat, n: nat :| Entered(p, s, from, pos, r) && EpsPath(p, s, pos, n, r, q);
    EpsExits(p, s, pos, n, r, q, j);
    if pos > from {
      var before := pos - 1;
      var i: nat :| ReadsTo(p, s, before, i, r) && Reached(p, s, from, before, i);
      StepExits(p, s, i, false, before, j);
      ReachedExits(p, s, from, before, i, j);
    }
  }

  lemma {:induction false} LeftAtMatch(p: Program, s: Text, pos: nat)
    requires WellMade(p)
    ensures Exits(p.states, [Slot(p.match_, false)], s, p.match_, pos, pos)
  {
    OneState(p.states, [Slot(p.match_, false)], s, p.match_, pos, pos);
    assert Slot(p.match_, false) in [Slot(p.match_, false)] && Fires(p.states[p.match_], false, s, pos);
  }

  /** A reading state that is reached leads to what is reached behind it. */
  lemma {:induction false} ReadOn(p: Program, s: Text, from: nat, pos: nat, h: nat, t: nat)
    requires from <= pos && Reached(p, s, from, pos, h) && ReadsTo(p, s, pos, h, t) && t < |p.states|
    ensures Reached(p, s, from, pos + 1, t)
  {
    assert Entered(p, s, from, pos + 1, t) && EpsPath(p, s, pos + 1, 0, t, t);
  }

  lemma {:induction false} GoOn(p: Program, s: Text, from: nat, pos: nat, q: nat, isB: bool)
    requires from <= pos && Reached(p, s, from, pos, q) && q < |p.states| && EpsFires(p.states[q], isB, s, pos)
    requires 0 <= Target(p.states[q], isB) < |p.states|
    ensures Reached(p, s, from, pos, Target(p.states[q], isB))
  {
    var r: nat, m: nat :| Entered(p, s, from, pos, r) && EpsPath(p, s, pos, m, r, q);
    EpsPathSnoc(p, s, pos, m, r, q, isB);
  }

  /** The rest of a run from a reached state is reached to its end. */
  lemma {:induction false} RunIsReached(p: Program, s: Text, from: nat, pos: nat, q: nat, n: nat, j: nat)
    requires from <= pos <= |s| && Reached(p, s, from, pos, q)
    requires WellMade(p) && Leaves(p.states, [Slot(p.match_, false)], s, n, q, pos, j)
    ensures pos <= j <= |s| && Reached(p, s, from, j, p.match_)
    decreases n
  {
    hide Reached, Passes;
    var out := [Slot(p.match_, false)];
    var isB := FirstSlot(p.states, out, s, n, q, pos, j);
    if n > 0 {
      var st := p.states[q];
      var t := Target(st, isB);
      var next := FirstSlot(p.states, out, s, n - 1, t, After(st, pos), j);
      if st.kind.CharState? {
        ReadOn(p, s, from, pos, q, t);
        RunIsReached(p, s, from, pos + 1, t, n - 1, j);
      } else {
        GoOn(p, s, from, pos, q, isB);
        RunIsReached(p, s, from, pos, t, n - 1, j);
      }
    }
  }

  /** A program takes the text up to where its accepting state is reached. */
  lemma {:induction false} AcceptsIsReached(p: Program, s: Text, i: nat, j: nat)
    requires WellMade(p) && i <= |s|
    ensures Accepts(p, s, i, j) <==> i <= j <= |s| && Reached(p, s, i, j, p.match_)
  {
    if Accepts(p, s, i, j) {
      var n := SomeRun(p.states, [Slot(p.match_, false)], s, p.start, i, j);
      assert Entered(p, s, i, i, p.start) && EpsPath(p, s, i, 0, p.start, p.start);
      RunIsReached(p, s, i, i, p.start, n, j);
    }
    if i <= j <= |s| && Reached(p, s, i, j, p.match_) {
      LeftAtMatch(p, s, j);
      ReachedExits(p, s, i, j, p.match_, j);
    }
  }

  // -------------------------------------------------------- simple conditions

  /** No reached state reads to a higher reached one that reads as well. */
  ghost predicate Unhindered(p: Program, s: Text) {
    forall from: nat, pos: nat, h: nat, i: nat ::
      from <= pos && h < i && Reached(p, s, from, pos, h) && ReadsTo(p, s, pos, h, i) && Reached(p, s, from, pos, i) ==>
        !(i < |p.states| && Reads(p.states[i], s[pos]))
  }

  /** Then every reached state that reads has its turn. */
  lemma {:induction false} UnhinderedTakesTurns(p: Program, s: Text)
    requires WellMade(p) && Unhindered(p, s)
    ensures TurnsTaken(p, s)
  {
    forall from: nat, pos: nat, h: nat, t: nat
      | from <= pos && Reached(p, s, from, pos, h) && ReadsTo(p, s, pos, h, t)
      ensures TakenOn(p, s, from, pos, t)
    {
      TargetExists(p, h);
      assert HasTurn(p, s, from, pos, h);
      assert EpsPath(p, s, pos + 1, 0, t, t);
      assert LeadsOn(p, s, pos + 1, t, t);
    }
  }

  lemma {:induction false} TargetExists(p: Program, h: nat)
    requires WellMade(p) && h < |p.states|
    ensures p.states[h].a < |p.states|
  {
    assert h in Span(0, |p.states|);
  }

  /** No code point of the text is read both by a state and by the higher state
      that it leads to: a check on the program and the text alone. */
  predicate ReadsApart(p: Program, s: Text) {
    forall h, c | 0 <= h < |p.states| && c in s && Reads(p.states[h], c) ::
      h < p.states[h].a < |p.states| ==> !Reads(p.states[p.states[h].a], c)
  }

  lemma {:induction false} ReadsApartIsUnhindered(p: Program, s: Text)
    requires ReadsApart(p, s)
    ensures Unhindered(p, s)
  {
    forall from: nat, pos: nat, h: nat, i: nat
      | from <= pos && h < i && Reached(p, s, from, pos, h) && ReadsTo(p, s, pos, h, i) && i < |p.states|
      ensures !Reads(p.states[i], s[pos])
    {
      assert s[pos] in s;
    }
  }

  lemma {:induction false} StraightIsUnhindered(p: Program, s: Text)
    requires Straight(p)
    ensures Unhindered(p, s)
  {
    forall from: nat, pos: nat, h: nat, i: nat
      | from <= pos && h < i && Reached(p, s, from, pos, h) && ReadsTo(p, s, pos, h, i) && Reached(p, s, from, pos, i)
      ensures !(i < |p.states| && Reads(p.states[i], s[pos]))
    {
      if i < |p.states| && Reads(p.states[i], s[pos]) {
        OneReader(p, s, from, pos, h, i);
      }
    }
  }

  /** Without alternatives only one reading state is reached at a time. */
  lemma {:induction false} OneReader(p: Program, s: Text, from: nat, pos: nat, h: nat, i: nat)
    requires Straight(p) && from <= pos && Reached(p, s, from, pos, h) && Reached(p, s, from, pos, i)
    requires h < |p.states| && i < |p.states| && p.states[h].kind.CharState? && p.states[i].kind.CharState?
    ensures h == i
    decreases pos
  {
    var r: nat, n: nat :| Entered(p, s, from, pos, r) && EpsPath(p, s, pos, n, r, h);
    var t: nat, m: nat :| Entered(p, s, from, pos, t) && EpsPath(p, s, pos, m, t, i);
    if pos > from {
      var before := pos - 1;
      var x: nat :| ReadsTo(p, s, before, x, r) && Reached(p, s, from, before, x);
      var y: nat :| ReadsTo(p, s, before, y, t) && Reached(p, s, from, before, y);
      OneReader(p, s, from, before, x, y);
    }
    OneEnd(p, s, pos, n, m, r, h, i);
  }

  lemma {:induction false} OneEnd(p: Program, s: Text, pos: nat, n: nat, m: nat, r: int, h: nat, i: nat)
    requires Straight(p) && EpsPath(p, s, pos, n, r, h) && EpsPath(p, s, pos, m, r, i)
    requires h < |p.states| && i < |p.states| && p.states[h].kind.CharState? && p.states[i].kind.CharState?
    ensures h == i
    decreases n
  {
    if n > 0 && m > 0 {
      var x := FirstEps(p, s, pos, n, r, h);
      var y := FirstEps(p, s, pos, m, r, i);
      OneEnd(p, s, pos, n - 1, m - 1, p.states[r].a, h, i);
    }
  }
}
