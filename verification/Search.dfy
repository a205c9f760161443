/** The search: a run of the matcher from every start.  It answers what the
    states it carries say; it never finds what the program does not take; and it
    carries every reached state exactly when each turn of a step is taken by a
    state that still has it. */
module Search {
  import opened Counting
  import opened Ranges
  import opened Regex
  import opened PatternCompiler
  import opened Simulation
  import opened Reachability

  /** State `q` is carried at `pos` by the run that started at `from`. */
  ghost predicate Active(p: Program, s: Text, from: nat, pos: nat, q: nat)
    requires from <= pos
    decreases pos, 0, 0, 1
  {
    exists r: nat, n: nat :: Seeded(p, s, from, pos, r) && EpsPath(p, s, pos, n, r, q)
  }

  /** ... as one of those its last step stamped. */
  ghost predicate Seeded(p: Program, s: Text, from: nat, pos: nat, r: nat)
    requires from <= pos
    decreases pos, 0, 0, 0
  {
    if pos == from then r == p.start
    else
      var before := pos - 1;
      exists i: nat :: Steps(p, s, from, before, i, r)
  }

  /** State `i` reads the code point at `pos` and stamps `r`. */
  ghost predicate Steps(p: Program, s: Text, from: nat, pos: nat, i: nat, r: nat)
    requires from <= pos
    decreases pos, 1, i, 1
  {
    ReadsTo(p, s, pos, i, r) && Live(p, s, from, pos, i)
  }

  /** State `i` is carried at `pos` and no earlier state has stamped it away
      before its turn. */
  ghost predicate Live(p: Program, s: Text, from: nat, pos: nat, i: nat)
    requires from <= pos
    decreases pos, 1, i, 0
  {
    Active(p, s, from, pos, i) && forall h: nat :: h < i ==> !Steps(p, s, from, pos, h, i)
  }

  /** The search succeeds. */
  ghost predicate Finds(p: Program, s: Text) {
    exists from: nat, pos: nat :: from <= pos <= |s| && Active(p, s, from, pos, p.match_)
  }

  // -------------------------------------------------------------- the code

  /** Every carried state, in order, stamps where it reads to. */
  method StepAll(p: Program, s: Text, mark: array<int>, gen: int, ghost from: nat, pos: nat)
    requires WellMade(p) && from <= pos < |s| && gen > 1 && mark.Length == |p.states|
    requires Carries(p, s, from, pos, mark[..], gen - 1)
    requires forall q :: 0 <= q < mark.Length ==> !Marked(mark[q], gen)
    modifies mark
    ensures Stepped(p, s, from, pos, old(mark[..]), mark[..], gen, |p.states|)
  {
    ghost var was := mark[..];
    var i := 0;
    while i < mark.Length
      invariant 0 <= i <= mark.Length && Stepped(p, s, from, pos, was, mark[..], gen, i)
    {
      StepOne(p, s, from, pos, was, mark[..], gen, i);
      ghost var m := mark[..];
      if mark[i] == gen - 1 || mark[i] == -(gen - 1) {
        if p.states[i].kind.CharState? {
          var pass := ClassMatch(p.states[i].any, p.states[i].ranges, p.states[i].negated, s[pos]);
          if pass {
            var t := p.states[i].a;
            assert i in Span(0, |p.states|);
            if t >= 0 && mark[t] != gen && mark[t] != -gen {
              mark[t] := gen;
              assert mark[..] == m[t := gen];
            } else if t >= 0 {
              assert m == m[t := gen];
            }
          }
        }
      }
      i := i + 1;
    }
  }

  /** Exactly the carried states have mark `-gen`, and none is open. */
  ghost predicate Carries(p: Program, s: Text, from: nat, pos: nat, m: seq<int>, gen: int)
    requires from <= pos
  {
    |m| == |p.states| && forall q :: 0 <= q < |m| ==> m[q] != gen && (m[q] == -gen <==> Active(p, s, from, pos, q))
  }

  /** The first `n` states have had their turn. */
  ghost predicate Stepped(p: Program, s: Text, from: nat, pos: nat, was: seq<int>, m: seq<int>, gen: int, n: nat)
    requires from <= pos
  {
    |m| == |was| && forall q :: 0 <= q < |m| ==>
      (m[q] == gen <==> StampedBy(p, s, from, pos, n, q)) && m[q] != -gen && (m[q] == gen || m[q] == was[q])
  }

  ghost predicate StampedBy(p: Program, s: Text, from: nat, pos: nat, n: nat, q: nat)
    requires from <= pos
  {
    exists h: nat :: h < n && Steps(p, s, from, pos, h, q)
  }

  /** One turn. */
  lemma {:induction false} StepOne(p: Program, s: Text, from: nat, pos: nat, was: seq<int>, m: seq<int>, gen: int,
                                   i: nat)
    requires WellMade(p) && from <= pos < |s| && gen > 1 && i < |m| && |was| == |p.states|
    requires Carries(p, s, from, pos, was, gen - 1) && Stepped(p, s, from, pos, was, m, gen, i)
    ensures Marked(m[i], gen - 1) <==> Live(p, s, from, pos, i)
    ensures var t := p.states[i].a;
            if Marked(m[i], gen - 1) && Reads(p.states[i], s[pos]) && t >= 0
            then t < |m| && Stepped(p, s, from, pos, was, m[t := gen], gen, i + 1)
            else Stepped(p, s, from, pos, was, m, gen, i + 1)
  {
    assert i in Span(0, |p.states|);
    TurnIsLive(p, s, from, pos, was, m, gen, i);
    var t := p.states[i].a;
    var stamps := Marked(m[i], gen - 1) && Reads(p.states[i], s[pos]);
    forall q | 0 <= q < |m|
      ensures StampedBy(p, s, from, pos, i + 1, q) <==> StampedBy(p, s, from, pos, i, q) || (stamps && q == t)
    {
      StampedOnce(p, s, from, pos, i, q);
    }
    hide StampedBy, Steps, Live;
  }

  /** The mark says whether the state is still live when its turn comes. */
  lemma {:induction false} TurnIsLive(p: Program, s: Text, from: nat, pos: nat, was: seq<int>, m: seq<int>, gen: int,
                                      i: nat)
    requires from <= pos && gen > 1 && i < |m| && |was| == |p.states|
    requires Carries(p, s, from, pos, was, gen - 1) && Stepped(p, s, from, pos, was, m, gen, i)
    ensures Marked(m[i], gen - 1) <==> Live(p, s, from, pos, i)
  {
    if m[i] == gen {
      var h: nat :| h < i && Steps(p, s, from, pos, h, i);
    } else {
      assert !StampedBy(p, s, from, pos, i, i);
    }
  }

  lemma {:induction false} StampedOnce(p: Program, s: Text, from: nat, pos: nat, i: nat, q: nat)
    requires from <= pos
    ensures StampedBy(p, s, from, pos, i + 1, q) <==> StampedBy(p, s, from, pos, i, q) || Steps(p, s, from, pos, i, q)
  {
    if h: nat :| h < i + 1 && Steps(p, s, from, pos, h, q) {
      assert h < i || h == i;
    }
  }

  /** No mark is of a later generation. */
  ghost predicate UpTo(m: seq<int>, gen: int) {
    forall q :: 0 <= q < |m| ==> -gen <= m[q] <= gen
  }

  function OpenSet(m: seq<int>, gen: int): set<nat> {
    set q | q in Span(0, |m|) && m[q] == gen
  }

  /** Closing the seeds gives what is carried. */
  lemma {:induction false} SeedsClose(p: Program, s: Text, from: nat, pos: nat, was: seq<int>, m: seq<int>, gen: int)
    requires from <= pos && |was| == |p.states| && UpTo(was, gen) && gen > 0
    requires forall r :: 0 <= r < |was| ==> (was[r] == gen <==> Seeded(p, s, from, pos, r)) && was[r] != -gen
    requires Closes(p, s, pos, gen, OpenSet(was, gen), was, m)
    ensures Carries(p, s, from, pos, m, gen) && UpTo(m, gen)
  {
    forall q | 0 <= q < |m| ensures m[q] == -gen <==> Active(p, s, from, pos, q) {
      if Near(p, s, pos, OpenSet(was, gen), q) {
        var r: nat, n: nat :| r in OpenSet(was, gen) && EpsPath(p, s, pos, n, r, q);
        assert Seeded(p, s, from, pos, r);
      }
      if Active(p, s, from, pos, q) {
        var r: nat, n: nat :| Seeded(p, s, from, pos, r) && EpsPath(p, s, pos, n, r, q);
        assert r < |was|;
        assert r in OpenSet(was, gen);
      }
    }
  }

  /** After a step, what is stamped are the next seeds. */
  lemma {:induction false} StepSeeds(p: Program, s: Text, from: nat, pos: nat, was: seq<int>, m: seq<int>, gen: int)
    requires from <= pos && |was| == |p.states| && Stepped(p, s, from, pos, was, m, gen, |p.states|)
    ensures forall r :: 0 <= r < |m| ==> (m[r] == gen <==> Seeded(p, s, from, pos + 1, r))
  {
    forall r | 0 <= r < |m| ensures StampedBy(p, s, from, pos, |p.states|, r) <==> Seeded(p, s, from, pos + 1, r) {
      if Seeded(p, s, from, pos + 1, r) {
        var i := WhoStamped(p, s, from, pos + 1, r);
      }
    }
  }

  /** The run that starts at `from`, until it reaches the accepting state or the
      end of the text. */
  method RunFrom(p: Program, s: Text, mark: array<int>, stack: array<nat>, first: int, from: nat)
      returns (matched: bool, gen: int)
    requires WellMade(p) && from <= |s| && first > 0
    requires mark.Length == |p.states| && stack.Length == mark.Length + 1
    requires Carries(p, s, from, from, mark[..], first) && UpTo(mark[..], first)
    modifies mark, stack
    ensures matched <==> exists pos: nat :: from <= pos <= |s| && Active(p, s, from, pos, p.match_)
    ensures gen >= first && UpTo(mark[..], gen)
  {
    hide Active, Seeded, Closes, Stepped;
    gen := first;
    var pos := from;
    while pos <= |s|
      invariant from <= pos <= |s| && gen >= first
      invariant Carries(p, s, from, pos, mark[..], gen) && UpTo(mark[..], gen)
      invariant forall k: nat :: from <= k < pos ==> !Active(p, s, from, k, p.match_)
      decreases |s| - pos
    {
      if mark[p.match_] == gen || mark[p.match_] == -gen {
        assert mark[..][p.match_] == -gen && Active(p, s, from, pos, p.match_);
        return true, gen;
      }
      if pos >= |s| {
        break;
      }
      gen := gen + 1;
      ghost var carried := mark[..];
      StepAll(p, s, mark, gen, from, pos);
      ghost var was := mark[..];
      StepSeeds(p, s, from, pos, carried, was, gen);
      ghost var pushed := Closure(p, s, pos + 1, mark, gen, stack, OpenSet(was, gen));
      SeedsClose(p, s, from, pos + 1, was, mark[..], gen);
      pos := pos + 1;
    }
    matched := false;
  }

  /** Runs from every start, until one succeeds. */
  method Search(p: Program, s: Text) returns (matched: bool)
    requires WellMade(p)
    ensures matched <==> Finds(p, s)
  {
    var mark := new int[|p.states|](_ => 0);
    var stack := new nat[|p.states| + 1];
    matched := false;
    var gen := 0;
    var start := 0;
    while start <= |s| && !matched
      invariant 0 <= start <= |s| + 1 && gen >= 0 && UpTo(mark[..], gen)
      invariant matched ==> Finds(p, s)
      invariant !matched ==> forall from: nat, pos: nat :: from <= pos <= |s| && from < start ==>
                !Active(p, s, from, pos, p.match_)
    {
      gen := gen + 1;
      if mark[p.start] != gen && mark[p.start] != -gen {
        mark[p.start] := gen;
      }
      ghost var was := mark[..];
      ghost var pushed := Closure(p, s, start, mark, gen, stack, OpenSet(was, gen));
      SeedsClose(p, s, start, start, was, mark[..], gen);
      matched, gen := RunFrom(p, s, mark, stack, gen, start);
      start := start + 1;
    }
  }

  // ----------------------------------------------------------------- meaning

  lemma {:induction false} WhoStamped(p: Program, s: Text, from: nat, pos: nat, r: nat) returns (i: nat)
    requires from < pos && Seeded(p, s, from, pos, r)
    ensures Steps(p, s, from, pos - 1, i, r) && Active(p, s, from, pos - 1, i) && ReadsTo(p, s, pos - 1, i, r)
  {
    i :| Steps(p, s, from, pos - 1, i, r);
    assert Live(p, s, from, pos - 1, i);
  }

  /** What is carried is reached: no step invents a state. */
  lemma {:induction false} ActiveIsReached(p: Program, s: Text, from: nat, pos: nat, q: nat)
    requires from <= pos && Active(p, s, from, pos, q)
    ensures Reached(p, s, from, pos, q)
    decreases pos
  {
    var r: nat, n: nat :| Seeded(p, s, from, pos, r) && EpsPath(p, s, pos, n, r, q);
    if pos > from {
      var i := WhoStamped(p, s, from, pos, r);
      ActiveIsReached(p, s, from, pos - 1, i);
    }
    assert Entered(p, s, from, pos, r);
  }

  /** The search is sound: what it finds the program takes. */
  lemma {:induction false} SearchIsSound(p: Program, s: Text) returns (from: nat, pos: nat)
    requires WellMade(p) && Finds(p, s)
    ensures from <= pos <= |s| && Accepts(p, s, from, pos)
  {
    from, pos :| from <= pos <= |s| && Active(p, s, from, pos, p.match_);
    ActiveIsReached(p, s, from, pos, p.match_);
    AcceptsIsReached(p, s, from, pos);
  }

  /** The carried states are the reached ones. */
  ghost predicate CarriesAt(p: Program, s: Text, from: nat, pos: nat)
    requires from <= pos
  {
    forall q: nat :: Active(p, s, from, pos, q) <==> Reached(p, s, from, pos, q)
  }

  /** Where the carried states are the reached ones, the states that are live are
      those that have their turn. */
  lemma {:induction false} LiveIsTurn(p: Program, s: Text, from: nat, pos: nat, i: nat)
    requires from <= pos && CarriesAt(p, s, from, pos)
    ensures Live(p, s, from, pos, i) <==> HasTurn(p, s, from, pos, i)
    decreases i
  {
    forall h: nat | h < i
      ensures Steps(p, s, from, pos, h, i) <==> ReadsTo(p, s, pos, h, i) && HasTurn(p, s, from, pos, h)
    {
      LiveIsTurn(p, s, from, pos, h);
    }
  }

  /** At every start and position the search carries exactly the states that are
      reached. */
  ghost predicate CarriesAll(p: Program, s: Text) {
    forall from: nat, pos: nat :: from <= pos ==> CarriesAt(p, s, from, pos)
  }

  /** It does so if and only if whatever is read to is taken on by a state that
      has its turn. */
  lemma {:induction false} CarriesAllIff(p: Program, s: Text)
    requires WellMade(p)
    ensures CarriesAll(p, s) <==> TurnsTaken(p, s)
  {
    if CarriesAll(p, s) {
      forall from: nat, pos: nat, h: nat, t: nat
        | from <= pos && Reached(p, s, from, pos, h) && ReadsTo(p, s, pos, h, t)
        ensures TakenOn(p, s, from, pos, t)
      {
        TargetExists(p, h);
        ReadOn(p, s, from, pos, h, t);
        assert CarriesAt(p, s, from, pos + 1);
        CarriedIsTaken(p, s, from, pos, t);
      }
    }
    if TurnsTaken(p, s) {
      forall from: nat, pos: nat | from <= pos ensures CarriesAt(p, s, from, pos) {
        TakenIsCarried(p, s, from, pos);
      }
    }
  }

  lemma {:induction false} CarriedIsTaken(p: Program, s: Text, from: nat, pos: nat, t: nat)
    requires CarriesAll(p, s) && from <= pos && Active(p, s, from, pos + 1, t)
    ensures TakenOn(p, s, from, pos, t)
  {
    var u: nat, n: nat :| Seeded(p, s, from, pos + 1, u) && EpsPath(p, s, pos + 1, n, u, t);
    var g := WhoStamped(p, s, from, pos + 1, u);
    LiveIsTurn(p, s, from, pos, g);
  }

  lemma {:induction false} TakenIsCarried(p: Program, s: Text, from: nat, pos: nat)
    requires TurnsTaken(p, s) && from <= pos
    ensures CarriesAt(p, s, from, pos)
    decreases pos
  {
    if pos > from {
      TakenIsCarried(p, s, from, pos - 1);
    }
    forall q: nat ensures Active(p, s, from, pos, q) <==> Reached(p, s, from, pos, q) {
      if Active(p, s, from, pos, q) {
        ActiveIsReached(p, s, from, pos, q);
      }
      if Reached(p, s, from, pos, q) {
        ReachedIsCarried(p, s, from, pos, q);
      }
    }
  }

  lemma {:induction false} ReachedIsCarried(p: Program, s: Text, from: nat, pos: nat, q: nat)
    requires TurnsTaken(p, s) && from <= pos && Reached(p, s, from, pos, q)
    requires pos > from ==> CarriesAt(p, s, from, pos - 1)
    ensures Active(p, s, from, pos, q)
  {
    var t: nat, n: nat :| Entered(p, s, from, pos, t) && EpsPath(p, s, pos, n, t, q);
    if pos == from {
      assert Seeded(p, s, from, pos, t);
    } else {
      var before := pos - 1;
      var h: nat :| ReadsTo(p, s, before, h, t) && Reached(p, s, from, before, h);
      assert TakenOn(p, s, from, before, t);
      var g: nat, u: nat :|
        HasTurn(p, s, from, before, g) && ReadsTo(p, s, before, g, u) && LeadsOn(p, s, pos, u, t);
      var m: nat :| EpsPath(p, s, pos, m, u, t);
      LiveIsTurn(p, s, from, before, g);
      assert Steps(p, s, from, before, g, u);
      EpsPathJoin(p, s, pos, m, n, u, t, q);
      assert Seeded(p, s, from, pos, u);
    }
  }

  /** Then the search finds a match if and only if there is one. */
  lemma {:induction false} SearchIsComplete(p: Program, s: Text)
    requires WellMade(p) && TurnsTaken(p, s)
    ensures Finds(p, s) <==> exists i: nat, j: nat :: i <= |s| && Accepts(p, s, i, j)
  {
    if Finds(p, s) {
      var from, pos := SearchIsSound(p, s);
    }
    if i: nat, j: nat :| i <= |s| && Accepts(p, s, i, j) {
      AcceptsIsReached(p, s, i, j);
      CarriesAllIff(p, s);
      assert CarriesAt(p, s, i, j);
    }
  }

  /** From pattern to answer: a search for a compiled pattern succeeds only when
      the pattern matches somewhere in the text; and if the pattern keeps its
      tails and every turn is taken, then exactly when it does. */
  lemma {:induction false} SearchFindsPattern(r: Re, p: Program, s: Text)
    requires WellMade(p) && forall i: nat, j: nat :: Accepts(p, s, i, j) <==> Matches(r, true, s, i, j)
    ensures Finds(p, s) ==> exists i: nat, j: nat :: i <= |s| && Matches(r, false, s, i, j)
    ensures Clean(r) && TurnsTaken(p, s) ==>
            (Finds(p, s) <==> exists i: nat, j: nat :: i <= |s| && Matches(r, false, s, i, j))
  {
    if Finds(p, s) {
      var i, j := SearchIsSound(p, s);
      CompiledIsFaithful(r, p, s, i, j);
    }
    if Clean(r) && TurnsTaken(p, s) && exists i: nat, j: nat :: i <= |s| && Matches(r, false, s, i, j) {
      var i: nat, j: nat :| i <= |s| && Matches(r, false, s, i, j);
      CompiledIsFaithful(r, p, s, i, j);
      SearchIsComplete(p, s);
    }
  }

  /** So it is when no reached state reads to a higher reached one that reads as
      well: for programs without alternatives whatever the text, and for all
      others where no code point is read twice in a row. */
  lemma {:induction false} SearchIsExact(r: Re, p: Program, s: Text)
    requires WellMade(p) && forall i: nat, j: nat :: Accepts(p, s, i, j) <==> Matches(r, true, s, i, j)
    requires Clean(r) && (Unhindered(p, s) || Straight(p) || ReadsApart(p, s))
    ensures Finds(p, s) <==> exists i: nat, j: nat :: i <= |s| && Matches(r, false, s, i, j)
  {
    if Straight(p) {
      StraightIsUnhindered(p, s);
    } else if ReadsApart(p, s) {
      ReadsApartIsUnhindered(p, s);
    }
    UnhinderedTakesTurns(p, s);
    SearchFindsPattern(r, p, s);
  }

  /** Compiling and searching: exact for every clean pattern without alternatives,
      options and loops, whatever the text. */
  method SearchPattern(r: Re, s: Text) returns (ok: bool, matched: bool)
    requires Parsed(r)
    ensures ok <==> Compilable(r) && Size(r) + 1 <= MAX_STATES
    ensures ok && matched ==> exists i: nat, j: nat :: i <= |s| && Matches(r, false, s, i, j)
    ensures ok && Clean(r) && Linear(r) ==>
              (matched <==> exists i: nat, j: nat :: i <= |s| && Matches(r, false, s, i, j))
  {
    var p;
    ok, p := Compile(r);
    matched := false;
    if ok {
      matched := Search(p, s);
      SearchFindsPattern(r, p, s);
      if Clean(r) && Linear(r) {
        SearchIsExact(r, p, s);
      }
    }
  }
}
