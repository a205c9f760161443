/** The matcher: all states a run may stand on are carried along the text in one
    array of generation marks, which each step restamps in place.

    `Active` says which states that leaves marked, including the states a step
    loses because an earlier state of the same step stamped them first. */
module Simulation {
  import opened Counting
  import opened Regex
  import opened Nfa
  import opened PatternCompiler

  // ------------------------------------------------------- steps without text

  predicate EpsFires(st: State, isB: bool, s: Text, pos: nat) {
    !st.kind.CharState? && !st.kind.Match? && Fires(st, isB, s, pos)
  }

  /** From `q` to `r` in `n` steps that read nothing. */
  ghost predicate EpsPath(p: Program, s: Text, pos: nat, n: nat, q: int, r: int)
    decreases n, 1
  {
    0 <= q < |p.states| &&
    if n == 0 then q == r
    else EpsBy(p, s, pos, n, q, false, r) || EpsBy(p, s, pos, n, q, true, r)
  }

  ghost predicate EpsBy(p: Program, s: Text, pos: nat, n: nat, q: int, isB: bool, r: int)
    requires 0 <= q < |p.states| && n > 0
    decreases n, 0
  {
    EpsFires(p.states[q], isB, s, pos) && EpsPath(p, s, pos, n - 1, Target(p.states[q], isB), r)
  }

  lemma {:induction false} FirstEps(p: Program, s: Text, pos: nat, n: nat, q: int, r: int) returns (isB: bool)
    requires n > 0 && EpsPath(p, s, pos, n, q, r)
    ensures 0 <= q < |p.states| && EpsBy(p, s, pos, n, q, isB, r)
  {
    isB := !EpsBy(p, s, pos, n, q, false, r);
  }

  /** One more step at the end. */
  lemma {:induction false} EpsPathSnoc(p: Program, s: Text, pos: nat, n: nat, q: int, r: nat, isB: bool)
    requires EpsPath(p, s, pos, n, q, r) && r < |p.states| && EpsFires(p.states[r], isB, s, pos)
    requires 0 <= Target(p.states[r], isB) < |p.states|
    ensures EpsPath(p, s, pos, n + 1, q, Target(p.states[r], isB))
    decreases n
  {
    var t := Target(p.states[r], isB);
    if n == 0 {
      assert EpsPath(p, s, pos, 0, t, t);
      assert EpsBy(p, s, pos, 1, q, isB, t);
    } else {
      var first := FirstEps(p, s, pos, n, q, r);
      EpsPathSnoc(p, s, pos, n - 1, Target(p.states[q], first), r, isB);
      assert EpsBy(p, s, pos, n + 1, q, first, t);
    }
  }

  /** `q` is reached from a state of `open` without reading. */
  ghost predicate Near(p: Program, s: Text, pos: nat, open: set<nat>, q: nat) {
    exists r: nat, n: nat :: r in open && EpsPath(p, s, pos, n, r, q)
  }

  // -------------------------------------------------------------------- marks

  predicate Marked(m: int, gen: int) {
    m == gen || m == -gen
  }

  /** Where the states that `q` leads to without reading are marked. */
  ghost predicate Followed(p: Program, s: Text, pos: nat, gen: int, m: seq<int>, q: nat)
    requires q < |p.states| == |m|
  {
    forall isB :: EpsFires(p.states[q], isB, s, pos) ==> MarkedAt(m, gen, Target(p.states[q], isB))
  }

  predicate MarkedAt(m: seq<int>, gen: int, t: int) {
    0 <= t < |m| ==> Marked(m[t], gen)
  }

  ghost predicate Stamped(open: set<nat>, m: seq<int>, gen: int) {
    forall q: nat :: q in open <==> q < |m| && m[q] == gen
  }

  /** `pushed` lists the marked states, each once. */
  ghost predicate Lists(pushed: seq<nat>, m: seq<int>, gen: int) {
    Distinct(pushed) && forall q: nat :: q in pushed <==> q < |m| && Marked(m[q], gen)
  }

  /** The walk that closes the set `open`: `st` is the stack, `cur` the state
      being followed or -1, `was` the marks before. */
  ghost predicate Walk(p: Program, s: Text, pos: nat, gen: int, open: set<nat>, was: seq<int>, m: seq<int>,
                       st: seq<nat>, cur: int,
                       pushed: seq<nat>) {
    && gen > 0 && Lists(pushed, m, gen) && Stacked(m, gen, st, cur) && Sound(p, s, pos, gen, open, was, m)
  }

  /** The open states are on the stack, once each, or are being followed. */
  ghost predicate Stacked(m: seq<int>, gen: int, st: seq<nat>, cur: int) {
    && Distinct(st) && -1 <= cur < |m| && (cur >= 0 ==> m[cur] == gen)
    && (forall q :: q in st ==> q < |m| && m[q] == gen && q != cur)
    && (forall q :: 0 <= q < |m| && m[q] == gen ==> q in st || q == cur)
  }

  /** Only what is near is marked, what is closed is followed, and nothing else
      has changed. */
  ghost predicate Sound(p: Program, s: Text, pos: nat, gen: int, open: set<nat>, was: seq<int>, m: seq<int>) {
    && |m| == |was| == |p.states|
    && (forall q :: q in open ==> q < |m| && Marked(m[q], gen))
    && (forall q :: 0 <= q < |m| && Marked(m[q], gen) ==> Near(p, s, pos, open, q))
    && (forall q :: 0 <= q < |m| && m[q] == -gen ==> Followed(p, s, pos, gen, m, q))
    && (forall q :: 0 <= q < |m| && !Marked(m[q], gen) ==> m[q] == was[q])
  }

  lemma {:induction false} WalkFits(p: Program, s: Text, pos: nat, gen: int, open: set<nat>, was: seq<int>,
                                    m: seq<int>, st: seq<nat>,
                                    cur: int, pushed: seq<nat>)
    requires Walk(p, s, pos, gen, open, was, m, st, cur, pushed)
    ensures |st| <= |m| == |p.states| && |pushed| <= |m|
  {
    AtMost(st, 0, |m|);
    AtMost(pushed, 0, |m|);
  }

  lemma {:induction false} WalkStarts(p: Program, s: Text, pos: nat, gen: int, open: set<nat>, m: seq<int>,
                                      st: seq<nat>)
    requires gen > 0 && |m| == |p.states| && Stamped(open, m, gen) && Distinct(st)
    requires forall q: nat :: q in st <==> q < |m| && m[q] == gen
    requires forall q :: 0 <= q < |m| ==> m[q] != -gen
    ensures Walk(p, s, pos, gen, open, m, m, st, -1, st)
  {
    forall q | 0 <= q < |m| && Marked(m[q], gen) ensures Near(p, s, pos, open, q) {
      assert EpsPath(p, s, pos, 0, q, q);
    }
  }

  lemma {:induction false} WalkPops(p: Program, s: Text, pos: nat, gen: int, open: set<nat>, was: seq<int>,
                                    m: seq<int>, st: seq<nat>,
                                    pushed: seq<nat>)
    requires Walk(p, s, pos, gen, open, was, m, st, -1, pushed) && st != []
    ensures st[|st| - 1] < |m| && Walk(p, s, pos, gen, open, was, m, st[..|st| - 1], st[|st| - 1], pushed)
  {
    hide Sound, Lists;
    var last := st[|st| - 1];
    assert last in st;
    var rest := st[..|st| - 1];
    assert st == rest + [last];
    forall q | q in rest ensures q in st && q != last {
      var k :| 0 <= k < |rest| && rest[k] == q;
      assert st[k] == q;
    }
    assert Distinct(rest);
    assert Stacked(m, gen, rest, last);
  }

  /** A state that the current one leads to is marked and pushed, unless it is
      marked already. */
  lemma {:induction false} WalkPushes(p: Program, s: Text, pos: nat, gen: int, open: set<nat>, was: seq<int>,
                                      m: seq<int>, st: seq<nat>,
                                      cur: nat, isB: bool, pushed: seq<nat>)
    requires Walk(p, s, pos, gen, open, was, m, st, cur, pushed) && EpsFires(p.states[cur], isB, s, pos)
    requires 0 <= Target(p.states[cur], isB) < |m| && !Marked(m[Target(p.states[cur], isB)], gen)
    ensures var t := Target(p.states[cur], isB);
            Walk(p, s, pos, gen, open, was, m[t := gen], st + [t], cur, pushed + [t])
  {
    var t := Target(p.states[cur], isB);
    SoundMore(p, s, pos, gen, open, was, m, cur, isB);
    ListsMore(pushed, m, gen, t);
    StackedMore(m, gen, st, cur, t);
    hide Lists, Sound, Stacked, EpsFires, Target;
  }

  lemma {:induction false} StackedMore(m: seq<int>, gen: int, st: seq<nat>, cur: nat, t: nat)
    requires Stacked(m, gen, st, cur) && t < |m| && !Marked(m[t], gen)
    ensures Stacked(m[t := gen], gen, st + [t], cur)
  {
    DistinctMore(st, t);
  }

  lemma {:induction false} SoundMore(p: Program, s: Text, pos: nat, gen: int, open: set<nat>, was: seq<int>,
                                     m: seq<int>,
                                     cur: nat, isB: bool)
    requires gen > 0 && Sound(p, s, pos, gen, open, was, m) && cur < |m| && m[cur] == gen
             && EpsFires(p.states[cur], isB, s, pos)
    requires 0 <= Target(p.states[cur], isB) < |m| && !Marked(m[Target(p.states[cur], isB)], gen)
    ensures Sound(p, s, pos, gen, open, was, m[Target(p.states[cur], isB) := gen])
  {
    var t := Target(p.states[cur], isB);
    var m' := m[t := gen];
    assert Marked(m[cur], gen);
    NearNext(p, s, pos, open, cur, isB);
    hide Near, EpsFires, Target;
    forall q | 0 <= q < |m| && m'[q] == -gen ensures Followed(p, s, pos, gen, m', q) {
      FollowedStays(p, s, pos, gen, m, m', q);
    }
  }

  lemma {:induction false} ListsMore(pushed: seq<nat>, m: seq<int>, gen: int, t: nat)
    requires Lists(pushed, m, gen) && t < |m| && !Marked(m[t], gen)
    ensures Lists(pushed + [t], m[t := gen], gen)
  {
    assert t !in pushed;
  }

  lemma {:induction false} NearNext(p: Program, s: Text, pos: nat, open: set<nat>, q: nat, isB: bool)
    requires Near(p, s, pos, open, q) && q < |p.states| && EpsFires(p.states[q], isB, s, pos)
    requires 0 <= Target(p.states[q], isB) < |p.states|
    ensures Near(p, s, pos, open, Target(p.states[q], isB))
  {
    var r: nat, n: nat :| r in open && EpsPath(p, s, pos, n, r, q);
    EpsPathSnoc(p, s, pos, n, r, q, isB);
  }

  /** Marking more states leaves a followed state followed. */
  lemma {:induction false} FollowedStays(p: Program, s: Text, pos: nat, gen: int, m: seq<int>, m': seq<int>, q: nat)
    requires q < |p.states| == |m| == |m'| && Followed(p, s, pos, gen, m, q)
    requires forall t :: 0 <= t < |m| && Marked(m[t], gen) ==> Marked(m'[t], gen)
    ensures Followed(p, s, pos, gen, m', q)
  {
    forall isB | EpsFires(p.states[q], isB, s, pos) ensures MarkedAt(m', gen, Target(p.states[q], isB)) {
      assert MarkedAt(m, gen, Target(p.states[q], isB));
    }
  }

  /** The current state is done with. */
  lemma {:induction false} WalkCloses(p: Program, s: Text, pos: nat, gen: int, open: set<nat>, was: seq<int>,
                                      m: seq<int>, st: seq<nat>,
                                      cur: nat, pushed: seq<nat>)
    requires Walk(p, s, pos, gen, open, was, m, st, cur, pushed) && Followed(p, s, pos, gen, m, cur)
    ensures Walk(p, s, pos, gen, open, was, m[cur := -gen], st, -1, pushed)
  {
    hide Near, Distinct;
    var m' := m[cur := -gen];
    forall q | 0 <= q < |m| && m'[q] == -gen ensures Followed(p, s, pos, gen, m', q) {
      FollowedStays(p, s, pos, gen, m, m', q);
    }
  }

  /** With an empty stack exactly the closure is marked. */
  lemma {:induction false} WalkEnds(p: Program, s: Text, pos: nat, gen: int, open: set<nat>, was: seq<int>,
                                    m: seq<int>, pushed: seq<nat>)
    requires Walk(p, s, pos, gen, open, was, m, [], -1, pushed)
    ensures Closes(p, s, pos, gen, open, was, m) && Lists(pushed, m, gen)
  {
    forall q | 0 <= q < |m| && Near(p, s, pos, open, q) ensures m[q] == -gen {
      var r: nat, n: nat :| r in open && EpsPath(p, s, pos, n, r, q);
      WalkReaches(p, s, pos, gen, open, was, m, pushed, n, r, q);
    }
  }

  /** What closing `open` does to the marks. */
  ghost predicate Closes(p: Program, s: Text, pos: nat, gen: int, open: set<nat>, was: seq<int>, m: seq<int>) {
    |m| == |was| && forall q :: 0 <= q < |m| ==>
      && (m[q] == -gen <==> Near(p, s, pos, open, q))
      && (m[q] == -gen || (m[q] == was[q] && !Marked(m[q], gen)))
  }

  lemma {:induction false} NextIsClosed(p: Program, s: Text, pos: nat, gen: int, open: set<nat>, was: seq<int>,
                                        m: seq<int>, pushed: seq<nat>, r: nat, isB: bool)
    requires Walk(p, s, pos, gen, open, was, m, [], -1, pushed) && r < |m| && m[r] == -gen
    requires r < |p.states| && EpsFires(p.states[r], isB, s, pos) && 0 <= Target(p.states[r], isB) < |m|
    ensures m[Target(p.states[r], isB)] == -gen
  {
    hide Lists, Near, EpsFires;
    assert Followed(p, s, pos, gen, m, r) && MarkedAt(m, gen, Target(p.states[r], isB));
  }

  lemma {:induction false} WalkReaches(p: Program, s: Text, pos: nat, gen: int, open: set<nat>, was: seq<int>,
                                       m: seq<int>,
                                       pushed: seq<nat>, n: nat, r: nat, q: nat)
    requires Walk(p, s, pos, gen, open, was, m, [], -1, pushed) && r < |m| && m[r] == -gen
             && EpsPath(p, s, pos, n, r, q)
    ensures q < |m| && m[q] == -gen
    decreases n
  {
    if n > 0 {
      var isB := FirstEps(p, s, pos, n, r, q);
      var t := Target(p.states[r], isB);
      if n > 1 {
        var next := FirstEps(p, s, pos, n - 1, t, q);
      }
      NextIsClosed(p, s, pos, gen, open, was, m, pushed, r, isB);
      hide Walk;
      WalkReaches(p, s, pos, gen, open, was, m, pushed, n - 1, t, q);
    }
  }

  /** The closure of the states stamped `gen`: afterwards they and all they lead
      to without reading are stamped `-gen`, and no other mark has changed.
      `pushed` lists the states that went on the stack, each once. */
  method Closure(p: Program, s: Text, pos: nat, mark: array<int>, gen: int, stack: array<nat>, ghost open: set<nat>)
      returns (ghost pushed: seq<nat>)
    requires WellMade(p) && pos <= |s| && gen > 0 && mark.Length == |p.states| && stack.Length == mark.Length + 1
    requires Stamped(open, mark[..], gen)
    requires forall q :: 0 <= q < mark.Length ==> mark[q] != -gen
    modifies mark, stack
    ensures Closes(p, s, pos, gen, open, old(mark[..]), mark[..])
    ensures Lists(pushed, mark[..], gen)
  {
    ghost var was := mark[..];
    var sp := 0;
    var i := 0;
    while i < mark.Length
      invariant 0 <= i <= mark.Length && sp <= i && mark[..] == was
      invariant Distinct(stack[..sp])
      invariant forall q: nat :: q in stack[..sp] <==> q < i && was[q] == gen
    {
      if mark[i] == gen {
        ghost var st := stack[..sp];
        stack[sp] := i;
        sp := sp + 1;
        assert stack[..sp] == st + [i];
      }
      i := i + 1;
    }
    pushed := stack[..sp];
    WalkStarts(p, s, pos, gen, open, was, pushed);
    pushed := Drain(p, s, pos, mark, gen, stack, sp, open, was, pushed);
  }

  /** Pops states and follows them until the stack is empty. */
  method Drain(p: Program, s: Text, pos: nat, mark: array<int>, gen: int, stack: array<nat>, size: nat,
               ghost open: set<nat>, ghost was: seq<int>, ghost start: seq<nat>)
      returns (ghost pushed: seq<nat>)
    requires WellMade(p) && pos <= |s| && mark.Length == |p.states| && stack.Length == mark.Length + 1
             && size < stack.Length
    requires Walk(p, s, pos, gen, open, was, mark[..], stack[..size], -1, start)
    modifies mark, stack
    ensures Closes(p, s, pos, gen, open, was, mark[..]) && Lists(pushed, mark[..], gen)
  {
    hide Walk;
    pushed := start;
    var sp := size;
    WalkFits(p, s, pos, gen, open, was, mark[..], stack[..sp], -1, pushed);
    while sp > 0
      invariant 0 <= sp < stack.Length && |pushed| <= mark.Length
      invariant Walk(p, s, pos, gen, open, was, mark[..], stack[..sp], -1, pushed)
      decreases mark.Length - |pushed|, sp
    {
      WalkPops(p, s, pos, gen, open, was, mark[..], stack[..sp], pushed);
      assert stack[..sp][..sp - 1] == stack[..sp - 1];
      sp := sp - 1;
      var q := stack[sp];
      var st := p.states[q];
      if st.kind.Split? {
        sp, pushed := Visit(p, s, pos, mark, gen, stack, sp, q, false, open, was, pushed);
        sp, pushed := Visit(p, s, pos, mark, gen, stack, sp, q, true, open, was, pushed);
      } else if st.kind.EdgeState? {
        var passed := EdgePassed(st.kind.anchor, s, pos);
        if passed {
          sp, pushed := Visit(p, s, pos, mark, gen, stack, sp, q, false, open, was, pushed);
        }
      }
      ghost var m := mark[..];
      WalkFits(p, s, pos, gen, open, was, m, stack[..sp], q, pushed);
      WalkCloses(p, s, pos, gen, open, was, m, stack[..sp], q, pushed);
      mark[q] := -gen;
      assert mark[..] == m[q := -gen];
    }
    assert stack[..sp] == [];
    WalkEnds(p, s, pos, gen, open, was, mark[..], pushed);
  }

  /** Whether the position lets an anchor state be left. */
  method EdgePassed(a: Anchor, s: Text, pos: nat) returns (passed: bool)
    requires pos <= |s|
    ensures passed == Holds(a, s, pos)
    ensures a.TextStart? ==> passed == (pos == 0)
    ensures a.TextEnd? ==> passed == (pos == |s|)
  {
    match a {
      case TextStart => return pos == 0;
      case TextEnd => return pos >= |s|;
      case WordEdge =>
        var before := pos > 0 && IsWord(s[pos - 1]);
        var after := pos < |s| && IsWord(s[pos]);
        return before != after;
      case NotWordEdge =>
        var before := pos > 0 && IsWord(s[pos - 1]);
        var after := pos < |s| && IsWord(s[pos]);
        return before == after;
    }
  }

  /** One target of the state being followed: marked and pushed if it is new. */
  method Visit(p: Program, s: Text, pos: nat, mark: array<int>, gen: int, stack: array<nat>, sp: nat, cur: nat,
               isB: bool,
               ghost open: set<nat>, ghost was: seq<int>, ghost pushed: seq<nat>)
      returns (sp': nat, ghost pushed': seq<nat>)
    requires WellMade(p) && mark.Length == |p.states| && stack.Length == mark.Length + 1 && sp < stack.Length
    requires cur < mark.Length && EpsFires(p.states[cur], isB, s, pos)
    requires Walk(p, s, pos, gen, open, was, mark[..], stack[..sp], cur, pushed)
    modifies mark, stack
    ensures sp' < stack.Length && Walk(p, s, pos, gen, open, was, mark[..], stack[..sp'], cur, pushed')
    ensures MarkedAt(mark[..], gen, Target(p.states[cur], isB))
    ensures forall t :: MarkedAt(old(mark[..]), gen, t) ==> MarkedAt(mark[..], gen, t)
    ensures (pushed' == pushed && sp' == sp) || |pushed'| > |pushed|
  {
    hide Walk;
    sp', pushed' := sp, pushed;
    var t := if isB then p.states[cur].b else p.states[cur].a;
    assert cur in Span(0, |p.states|);
    if t >= 0 && mark[t] != gen && mark[t] != -gen {
      ghost var m, st := mark[..], stack[..sp];
      WalkPushes(p, s, pos, gen, open, was, m, st, cur, isB, pushed);
      pushed' := pushed + [t];
      mark[t] := gen;
      stack[sp] := t;
      sp' := sp + 1;
      assert mark[..] == m[t := gen] && stack[..sp'] == st + [t as nat];
      WalkFits(p, s, pos, gen, open, was, mark[..], stack[..sp'], cur, pushed');
    }
  }
}
