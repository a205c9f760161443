/** A match that the search loses: "ab" matches `a?ab`, and is not found. */
module LostMatch {
  import opened Ranges
  import opened Regex
  import opened Nfa
  import opened PatternCompiler
  import opened Simulation
  import opened Reachability
  import opened Search

  const A: Re := Chr(97, false)
  const B: Re := Chr(98, false)
  const OptionalA: Re := Quant(A, 0, 1)

  /** `a?ab` */
  const Pattern: Re := Seq([OptionalA, A, B])

  function Letter(c: nat, a: int): State {
    State(CharState, false, [Range(c, c)], false, a, -1)
  }

  /** What it compiles to. */
  const Compiled: Program :=
    Program([State(Split, false, [], false, 1, 2), Letter(97, 2), Letter(97, 3), Letter(98, 4),
             State(Match, false, [], false, -1, -1)],
            0, 4)

  const Ab: Text := [97, 98]

  // --------------------------------------------- the program and the pattern

  predicate IsAb(s: Text, i: nat, j: nat) {
    i + 2 <= |s| && s[i] == 97 && s[i + 1] == 98 && j == i + 2
  }

  lemma {:induction false} LetterHit(c: nat, d: nat)
    ensures Hit([Range(c, c)], d) <==> d == c
  {
    AscendingIsExact([Range(c, c)], d);
    if d == c {
      assert Covers([Range(c, c)][0], d);
    }
  }

  lemma {:induction false} CompiledIsWellMade()
    ensures WellMade(Compiled)
  {
  }

  /** What a run can do from a state other than the accepting one. */
  lemma {:induction false} OneMore(s: Text, q: nat, i: nat, j: nat)
    requires q < 4
    ensures var st := Compiled.states[q];
            Taken(s, q, i, j) <==>
              || (Fires(st, false, s, i) && Taken(s, st.a, After(st, i), j))
              || (Fires(st, true, s, i) && Taken(s, st.b, After(st, i), j))
  {
    var out := [Slot(4, false)];
    if Taken(s, q, i, j) {
      var n := SomeRun(Compiled.states, out, s, q, i, j);
      var isB := FirstSlot(Compiled.states, out, s, n, q, i, j);
      assert Slot(q, isB) !in out;
    }
    forall isB | Fires(Compiled.states[q], isB, s, i)
      && Taken(s, Target(Compiled.states[q], isB), After(Compiled.states[q], i), j)
      ensures Taken(s, q, i, j)
    {
      StepExits(Compiled, s, q, isB, i, j);
    }
  }

  /** The program takes the text from `i` to `j` when it starts in `q`. */
  ghost predicate Taken(s: Text, q: int, i: nat, j: nat) {
    Exits(Compiled.states, [Slot(4, false)], s, q, i, j)
  }

  lemma {:induction false} TakenFromLetters(s: Text, i: nat, j: nat)
    ensures Taken(s, 3, i, j) <==> i < |s| && s[i] == 98 && j == i + 1
    ensures Taken(s, 2, i, j) <==> IsAb(s, i, j)
  {
    MatchIsLeft(Compiled.states, 4, s, i + 1, j);
    MatchIsLeft(Compiled.states, 4, s, i + 2, j);
    OneMore(s, 3, i, j);
    OneMore(s, 3, i + 1, j);
    OneMore(s, 2, i, j);
    hide Taken, Hit;
    LettersPass(s, i);
    LettersPass(s, i + 1);
  }

  lemma {:induction false} LettersPass(s: Text, i: nat)
    ensures Fires(Compiled.states[3], false, s, i) <==> i < |s| && s[i] == 98
    ensures Fires(Compiled.states[2], false, s, i) <==> i < |s| && s[i] == 97
    ensures Fires(Compiled.states[1], false, s, i) <==> i < |s| && s[i] == 97
  {
    if i < |s| {
      LetterHit(98, s[i]);
      LetterHit(97, s[i]);
    }
  }

  lemma {:induction false} TakenFromStart(s: Text, i: nat, j: nat)
    ensures Accepts(Compiled, s, i, j) <==> IsAb(s, i, j) || (i < |s| && s[i] == 97 && IsAb(s, i + 1, j))
  {
    TakenFromLetters(s, i, j);
    TakenFromLetters(s, i + 1, j);
    OneMore(s, 1, i, j);
    OneMore(s, 0, i, j);
    LettersPass(s, i);
  }

  lemma {:induction false} OptionalMeans(s: Text, i: nat, j: nat)
    ensures Matches(OptionalA, true, s, i, j) <==> i == j || (i < |s| && s[i] == 97 && j == i + 1)
  {
    OptionSnoc(A, 0, 0, s, i, j);
    ExactlyRepeats(A, 0, s, i, i);
    ExactlyRepeats(A, 0, s, i, j);
    forall k: nat ensures Matches(Quant(A, 0, 0), true, s, i, k) <==> i == k {
      ExactlyRepeats(A, 0, s, i, k);
    }
  }

  lemma {:induction false} PatternIsClean()
    ensures Parsed(Pattern) && Clean(Pattern) && !LosesTail([OptionalA, A, B])
  {
  }

  lemma {:induction false} PatternMeans(s: Text, i: nat, j: nat)
    ensures Matches(Pattern, true, s, i, j) <==> IsAb(s, i, j) || (i < |s| && s[i] == 97 && IsAb(s, i + 1, j))
  {
    PatternIsClean();
    var ps := [OptionalA, A, B];
    assert ps[..2] == [OptionalA, A] && [OptionalA, A][..1] == [OptionalA] && [OptionalA][..0] == [];
    if SeqMatches(ps, true, s, i, j) {
      var k := LastPart(ps, true, s, i, j);
      var l := LastPart([OptionalA, A], true, s, i, k);
      var m := LastPart([OptionalA], true, s, i, l);
      OptionalMeans(s, i, l);
    }
    if IsAb(s, i, j) {
      PatternParts(s, i, i);
    }
    if i < |s| && s[i] == 97 && IsAb(s, i + 1, j) {
      PatternParts(s, i, i + 1);
    }
  }

  lemma {:induction false} PatternParts(s: Text, i: nat, l: nat)
    requires IsAb(s, l, l + 2) && (l == i || (l == i + 1 && s[i] == 97))
    ensures SeqMatches([OptionalA, A, B], true, s, i, l + 2)
  {
    OptionalMeans(s, i, l);
    assert [OptionalA][..0] == [] && SeqMatches([], true, s, i, i);
    assert SeqMatches([OptionalA], true, s, i, l);
    assert [OptionalA, A][..1] == [OptionalA] && Matches([OptionalA, A][1], true, s, l, l + 1);
    assert SeqMatches([OptionalA, A], true, s, i, l + 1);
    assert [OptionalA, A, B][..2] == [OptionalA, A] && Matches([OptionalA, A, B][2], true, s, l + 1, l + 2);
  }

  // -------------------------------------------------------------- the search

  /** Reading nothing, the program stays among its first three states. */
  lemma {:induction false} EpsStaysLow(pos: nat, n: nat, r: nat, q: nat)
    requires EpsPath(Compiled, Ab, pos, n, r, q)
    ensures (r != 0 ==> q == r) && (r <= 2 ==> q <= 2)
    decreases n
  {
    if n > 0 {
      var isB := FirstEps(Compiled, Ab, pos, n, r, q);
      EpsStaysLow(pos, n - 1, Target(Compiled.states[r], isB), q);
    }
  }

  lemma {:induction false} StartStates(from: nat, q: nat)
    ensures Active(Compiled, Ab, from, from, q) <==> q <= 2
  {
    var p := Compiled;
    if Active(p, Ab, from, from, q) {
      var r: nat, n: nat :| Seeded(p, Ab, from, from, r) && EpsPath(p, Ab, from, n, r, q);
      EpsStaysLow(from, n, r, q);
    }
    if q <= 2 {
      assert Seeded(p, Ab, from, from, 0) && EpsPath(p, Ab, from, 0, q, q);
      if q > 0 {
        assert EpsBy(p, Ab, from, 1, 0, q == 2, q);
        assert EpsPath(p, Ab, from, 1, 0, q);
      }
    }
  }

  /** At the first letter the optional `a` stamps away the other `a`, so only
      state 2 is carried on; it does not read `b`. */
  lemma {:induction false} OnlyTheSecondA(q: nat)
    ensures Active(Compiled, Ab, 0, 1, q) ==> q == 2
  {
    var p := Compiled;
    if Active(p, Ab, 0, 1, q) {
      var r: nat, n: nat :| Seeded(p, Ab, 0, 1, r) && EpsPath(p, Ab, 1, n, r, q);
      var i := WhoStamped(p, Ab, 0, 1, r);
      StartStates(0, i);
      LetterHit(97, 97);
      if i == 2 {
        StartStates(0, 1);
        assert forall h: nat :: !(h < 1 && Steps(p, Ab, 0, 0, h, 1));
        assert Live(p, Ab, 0, 0, 1);
        assert Steps(p, Ab, 0, 0, 1, 2);
        assert false;
      }
      EpsStaysLow(1, n, r, q);
    }
  }

  lemma {:induction false} NeverAtMatch(from: nat, pos: nat)
    requires from <= pos <= 2
    ensures !Active(Compiled, Ab, from, pos, 4)
  {
    var p := Compiled;
    LetterHit(97, 98);
    if from == pos {
      StartStates(from, 4);
    } else if pos == 1 {
      OnlyTheSecondA(4);
    } else if Active(p, Ab, from, 2, 4) {
      var r: nat, n: nat :| Seeded(p, Ab, from, 2, r) && EpsPath(p, Ab, 2, n, r, 4);
      var i := WhoStamped(p, Ab, from, 2, r);
      if from == 0 {
        OnlyTheSecondA(i);
      } else {
        StartStates(1, i);
      }
      assert false;
    }
  }

  /** The pattern keeps its tails, the program takes exactly what it matches, "ab"
      is among that, and the search does not find it. */
  lemma {:induction false} SearchLosesAMatch()
    ensures WellMade(Compiled) && Parsed(Pattern) && Clean(Pattern)
    ensures forall s: Text, i: nat, j: nat :: Accepts(Compiled, s, i, j) <==> Matches(Pattern, true, s, i, j)
    ensures Matches(Pattern, false, Ab, 0, 2) && !Finds(Compiled, Ab) && !TurnsTaken(Compiled, Ab)
  {
    CompiledIsWellMade();
    PatternIsClean();
    forall s: Text, i: nat, j: nat ensures Accepts(Compiled, s, i, j) <==> Matches(Pattern, true, s, i, j) {
      TakenFromStart(s, i, j);
      PatternMeans(s, i, j);
    }
    PatternMeans(Ab, 0, 2);
    LossyIsSound(Pattern, Ab, 0, 2);
    forall from: nat, pos: nat | from <= pos <= |Ab| ensures !Active(Compiled, Ab, from, pos, 4) {
      NeverAtMatch(from, pos);
    }
    if TurnsTaken(Compiled, Ab) {
      assert Accepts(Compiled, Ab, 0, 2);
      SearchIsComplete(Compiled, Ab);
    }
  }
}
