/** Automata whose states have two out-slots, fragments of them with dangling
    slots, and how patching a slot composes what two fragments match. */
module Nfa {
  import opened Ranges
  import opened Regex

  datatype Kind = CharState | Split | Match | EdgeState(anchor: Anchor)

  /** Out-slots hold a state, or -1. */
  datatype State = State(kind: Kind, any: bool, ranges: seq<Range>, negated: bool, a: int, b: int)

  datatype Slot = Slot(state: nat, isB: bool)

  function Target(st: State, isB: bool): int {
    if isB then st.b else st.a
  }

  function WithTarget(st: State, isB: bool, to: int): (r: State)
    ensures r.kind == st.kind && r.any == st.any && r.ranges == st.ranges && r.negated == st.negated
    ensures Target(r, isB) == to && Target(r, !isB) == Target(st, !isB)
  {
    if isB then st.(b := to) else st.(a := to)
  }

  /** A run standing on the state at position `i` may leave through the slot;
      an accepting state lets it leave through its first. */
  predicate Fires(st: State, isB: bool, s: Text, i: nat) {
    match st.kind
    case CharState => !isB && i < |s| && Passes(st.any, st.ranges, st.negated, s[i])
    case Split => true
    case Match => !isB
    case EdgeState(anchor) => !isB && Holds(anchor, s, i)
  }

  function After(st: State, i: nat): nat {
    if st.kind.CharState? then i + 1 else i
  }

  type Tail = seq<Slot>

  /** A run from state `q` at position `i` takes `n` inner steps, then leaves
      through a slot of `tail` at position `j`. */
  ghost predicate Leaves(states: seq<State>, tail: Tail, s: Text, n: nat, q: int, i: nat, j: nat)
    decreases n, 1
  {
    0 <= q < |states|
    && (LeavesBy(states, tail, s, n, q, false, i, j) || LeavesBy(states, tail, s, n, q, true, i, j))
  }

  /** The same, by firing slot `isB` of `q` first. */
  ghost predicate LeavesBy(states: seq<State>, tail: Tail, s: Text, n: nat, q: int, isB: bool, i: nat, j: nat)
    requires 0 <= q < |states|
    decreases n, 0
  {
    && Fires(states[q], isB, s, i)
    && (if n == 0 then Slot(q, isB) in tail && j == After(states[q], i)
        else Leaves(states, tail, s, n - 1, Target(states[q], isB), After(states[q], i), j))
  }

  /** Some run from state `q` at `i` leaves through `tail` at `j`. */
  ghost predicate Exits(states: seq<State>, tail: Tail, s: Text, q: int, i: nat, j: nat) {
    exists n: nat :: Leaves(states, tail, s, n, q, i, j)
  }

  /** The first slot a run fires. */
  lemma {:induction false} FirstSlot(states: seq<State>, tail: Tail, s: Text, n: nat, q: int, i: nat, j: nat)
      returns (isB: bool)
    requires Leaves(states, tail, s, n, q, i, j)
    ensures 0 <= q < |states| && LeavesBy(states, tail, s, n, q, isB, i, j)
  {
    isB := !LeavesBy(states, tail, s, n, q, false, i, j);
  }

  lemma {:induction false} SomeRun(states: seq<State>, tail: Tail, s: Text, q: int, i: nat, j: nat) returns (n: nat)
    requires Exits(states, tail, s, q, i, j)
    ensures Leaves(states, tail, s, n, q, i, j)
  {
    n :| Leaves(states, tail, s, n, q, i, j);
  }

  // ---------------------------------------------------------------- fragments

  type Region = set<nat>

  predicate Inside(to: int, region: Region) {
    to == -1 || (to >= 0 && to in region)
  }

  /** The states of the region lead nowhere else. */
  ghost predicate Closed(states: seq<State>, region: Region) {
    forall q :: q in region ==> q < |states| && Inside(states[q].a, region) && Inside(states[q].b, region)
  }

  /** The tail's slots belong to the fragment and are empty. */
  ghost predicate Dangling(states: seq<State>, region: Region, tail: Tail) {
    forall x :: x in tail ==> x.state in region && x.state < |states| && Target(states[x.state], x.isB) == -1
  }

  /** `now` is `was` on the region, with the slots of `tail` patched to `to`. */
  ghost predicate Patched(was: seq<State>, now: seq<State>, region: Region, tail: Tail, to: int) {
    forall q :: q in region ==> q < |was| && q < |now| && PatchedAt(was, now, q, tail, to)
  }

  ghost predicate PatchedAt(was: seq<State>, now: seq<State>, q: nat, tail: Tail, to: int)
    requires q < |was| && q < |now|
  {
    && now[q].kind == was[q].kind && now[q].any == was[q].any
    && now[q].ranges == was[q].ranges && now[q].negated == was[q].negated
    && now[q].a == (if Slot(q, false) in tail then to else was[q].a)
    && now[q].b == (if Slot(q, true) in tail then to else was[q].b)
  }

  /** Inside the fragment, `tail` and `rest` have the same slots. */
  ghost predicate SameSlots(tail: Tail, rest: Tail, region: Region) {
    forall q, isB :: q in region ==> (Slot(q, isB) in tail <==> Slot(q, isB) in rest)
  }

  /** A fragment `was` patched into `now`: what both sides of the composition
      rest on. */
  ghost predicate Composed(was: seq<State>, now: seq<State>, region: Region, patched: Tail, rest: Tail, to: int,
                           tail: Tail) {
    && Closed(was, region) && Dangling(was, region, patched) && Patched(was, now, region, patched, to)
    && SameSlots(tail, rest, region)
  }

  /** A run through a patched fragment either leaves by one of the other slots,
      or reaches the patched ones and goes on from there. */
  lemma {:induction false} SplitRun(was: seq<State>, now: seq<State>, region: Region, patched: Tail, rest: Tail,
                                    to: int, tail: Tail, s: Text, n: nat, q: nat, i: nat, j: nat)
      returns (m: nat, k: nat)
    requires Composed(was, now, region, patched, rest, to, tail) && q in region
    requires Leaves(now, tail, s, n, q, i, j)
    ensures || Leaves(was, rest, s, n, q, i, j)
            || (m < n && Leaves(was, patched, s, m, q, i, k) && Leaves(now, tail, s, n - 1 - m, to, k, j))
    decreases n
  {
    m, k := 0, i;
    assert PatchedAt(was, now, q, patched, to);
    var isB := FirstSlot(now, tail, s, n, q, i, j);
    var i' := After(was[q], i);
    if n == 0 {
      assert LeavesBy(was, rest, s, 0, q, isB, i, j);
    } else if Slot(q, isB) in patched {
      k := i';
      assert LeavesBy(was, patched, s, 0, q, isB, i, k);
    } else {
      var t := Target(was[q], isB);
      var next := FirstSlot(now, tail, s, n - 1, t, i', j);
      m, k := SplitRun(was, now, region, patched, rest, to, tail, s, n - 1, t, i', j);
      if Leaves(was, rest, s, n - 1, t, i', j) {
        assert LeavesBy(was, rest, s, n, q, isB, i, j);
      } else {
        assert LeavesBy(was, patched, s, m + 1, q, isB, i, k);
        m := m + 1;
      }
    }
  }

  lemma {:induction false} KeepRun(was: seq<State>, now: seq<State>, region: Region, patched: Tail, rest: Tail,
                                   to: int, tail: Tail, s: Text, n: nat, q: nat, i: nat, j: nat)
    requires Composed(was, now, region, patched, rest, to, tail) && q in region
    requires Leaves(was, rest, s, n, q, i, j)
    ensures Leaves(now, tail, s, n, q, i, j)
    decreases n
  {
    assert PatchedAt(was, now, q, patched, to);
    var isB := FirstSlot(was, rest, s, n, q, i, j);
    if n > 0 {
      var t := Target(was[q], isB);
      var next := FirstSlot(was, rest, s, n - 1, t, After(was[q], i), j);
      KeepRun(was, now, region, patched, rest, to, tail, s, n - 1, t, After(was[q], i), j);
    }
    assert LeavesBy(now, tail, s, n, q, isB, i, j);
  }

  lemma {:induction false} JoinRuns(was: seq<State>, now: seq<State>, region: Region, patched: Tail, rest: Tail,
                                    to: int, tail: Tail, s: Text, m: nat, n: nat, q: nat, i: nat, k: nat, j: nat)
    requires Composed(was, now, region, patched, rest, to, tail) && q in region
    requires Leaves(was, patched, s, m, q, i, k) && Leaves(now, tail, s, n, to, k, j)
    ensures Leaves(now, tail, s, m + 1 + n, q, i, j)
    decreases m
  {
    assert PatchedAt(was, now, q, patched, to);
    var isB := FirstSlot(was, patched, s, m, q, i, k);
    if m > 0 {
      var t := Target(was[q], isB);
      var next := FirstSlot(was, patched, s, m - 1, t, After(was[q], i), k);
      JoinRuns(was, now, region, patched, rest, to, tail, s, m - 1, n, t, After(was[q], i), k, j);
    }
    assert LeavesBy(now, tail, s, m + 1 + n, q, isB, i, j);
  }

  /** Patching composes: what a patched fragment matches is what its other
      slots matched, and what its patched slots matched followed by what is
      matched from the new target on. */
  lemma {:induction false} PatchComposes(was: seq<State>, now: seq<State>, region: Region, patched: Tail, rest: Tail,
                                         to: int, tail: Tail, s: Text, q: nat, i: nat, j: nat)
    requires Composed(was, now, region, patched, rest, to, tail) && q in region
    ensures Exits(now, tail, s, q, i, j) <==>
              || Exits(was, rest, s, q, i, j)
              || exists k: nat :: Exits(was, patched, s, q, i, k) && Exits(now, tail, s, to, k, j)
  {
    if Exits(now, tail, s, q, i, j) {
      var n := SomeRun(now, tail, s, q, i, j);
      var m, k := SplitRun(was, now, region, patched, rest, to, tail, s, n, q, i, j);
      if !Leaves(was, rest, s, n, q, i, j) {
        assert Exits(was, patched, s, q, i, k) && Exits(now, tail, s, to, k, j);
      }
    }
    if Exits(was, rest, s, q, i, j) {
      var n := SomeRun(was, rest, s, q, i, j);
      KeepRun(was, now, region, patched, rest, to, tail, s, n, q, i, j);
    }
    if exists k: nat :: Exits(was, patched, s, q, i, k) && Exits(now, tail, s, to, k, j) {
      var k: nat :| Exits(was, patched, s, q, i, k) && Exits(now, tail, s, to, k, j);
      var m := SomeRun(was, patched, s, q, i, k);
      var n := SomeRun(now, tail, s, to, k, j);
      JoinRuns(was, now, region, patched, rest, to, tail, s, m, n, q, i, k, j);
    }
  }

  /** Without a slot of its own in the tail, a closed fragment is never left. */
  lemma {:induction false} NoWayOut(states: seq<State>, region: Region, tail: Tail, s: Text, n: nat, q: int, i: nat,
                                    j: nat)
    requires Closed(states, region) && Inside(q, region)
    requires SameSlots(tail, [], region)
    ensures !Leaves(states, tail, s, n, q, i, j)
    decreases n
  {
    if q != -1 {
      forall isB ensures !LeavesBy(states, tail, s, n, q, isB, i, j) {
        if n > 0 {
          NoWayOut(states, region, tail, s, n - 1, Target(states[q], isB), After(states[q], i), j);
        }
      }
    }
  }

  /** What a fragment matches depends on its own states and slots only. */
  lemma {:induction false} ExitsElsewhere(was: seq<State>, now: seq<State>, region: Region, rest: Tail, tail: Tail,
                                          s: Text, q: nat, i: nat, j: nat)
    requires Closed(was, region) && Patched(was, now, region, [], -1) && SameSlots(tail, rest, region) && q in region
    ensures Exits(now, tail, s, q, i, j) <==> Exits(was, rest, s, q, i, j)
  {
    PatchComposes(was, now, region, [], rest, -1, tail, s, q, i, j);
  }

  lemma {:induction false} NoExit(states: seq<State>, region: Region, tail: Tail, s: Text, q: int, i: nat, j: nat)
    requires Closed(states, region) && Inside(q, region) && SameSlots(tail, [], region)
    ensures !Exits(states, tail, s, q, i, j)
  {
    forall n: nat ensures !Leaves(states, tail, s, n, q, i, j) {
      NoWayOut(states, region, tail, s, n, q, i, j);
    }
  }

  // ------------------------------------------------------------------ meaning

  /** The fragment with this entry and tail matches what `r` does once
      compiled. */
  ghost predicate Means(states: seq<State>, entry: int, tail: Tail, r: Re) {
    forall s: Text, i: nat, j: nat :: Exits(states, tail, s, entry, i, j) <==> Matches(r, true, s, i, j)
  }

  /** The region is a fragment that means `r`.  Without an entry it means the
      empty text; its states are then unreachable. */
  ghost predicate Fragment(states: seq<State>, region: Region, entry: int, tail: Tail, r: Re) {
    && Closed(states, region) && Dangling(states, region, tail)
    && (entry == -1 <==> Eps(r))
    && (entry != -1 ==> entry >= 0 && entry in region && Means(states, entry, tail, r))
  }

  /** A fragment of one state that is left at once. */
  lemma {:induction false} OneState(states: seq<State>, tail: Tail, s: Text, q: nat, i: nat, j: nat)
    requires q < |states| && states[q].a == -1 && states[q].b == -1
    ensures Exits(states, tail, s, q, i, j) <==>
              exists isB :: Slot(q, isB) in tail && Fires(states[q], isB, s, i) && j == After(states[q], i)
  {
    if isB :| Slot(q, isB) in tail && Fires(states[q], isB, s, i) && j == After(states[q], i) {
      assert LeavesBy(states, tail, s, 0, q, isB, i, j);
      assert Leaves(states, tail, s, 0, q, i, j);
    }
    if Exits(states, tail, s, q, i, j) {
      var n := SomeRun(states, tail, s, q, i, j);
      var isB := FirstSlot(states, tail, s, n, q, i, j);
    }
  }
}
