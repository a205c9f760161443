/** What patterns mean, said without the definitions that the compiler and the
    matcher share: single characters and anchors with their code points and
    positions written out, sequences and repetitions by the positions where they
    are cut, and patterns that must match the whole text. */
module PatternMeaning {
  import opened Ranges
  import opened Regex
  import opened Nfa
  import opened PatternCompiler
  import opened Simulation
  import opened Reachability
  import opened Search

  // ------------------------------------------------------------------ anchors

  /** A letter, a digit or the underscore, of ASCII. */
  predicate IsWordChar(c: nat) {
    || 'a' as nat <= c <= 'z' as nat || 'A' as nat <= c <= 'Z' as nat
    || '0' as nat <= c <= '9' as nat || c == '_' as nat
  }

  predicate WordBefore(s: Text, pos: nat) {
    exists k: nat :: k < |s| && k + 1 == pos && IsWordChar(s[k])
  }

  predicate WordBehind(s: Text, pos: nat) {
    pos < |s| && IsWordChar(s[pos])
  }

  /** Where an anchor lets a run pass: the start, the end, between a word and what
      is none, and everywhere else. */
  ghost predicate AnchorIsMet(a: Anchor, s: Text, pos: nat) {
    && (a == TextStart ==> pos == 0)
    && (a == TextEnd ==> pos == |s|)
    && (a == WordEdge ==> WordBefore(s, pos) != WordBehind(s, pos))
    && (a == NotWordEdge ==> WordBefore(s, pos) == WordBehind(s, pos))
  }

  lemma {:induction false} AnchorHolds(a: Anchor, s: Text, pos: nat)
    requires pos <= |s|
    ensures Holds(a, s, pos) <==> AnchorIsMet(a, s, pos)
  {
    if pos > 0 {
      assert WordBefore(s, pos) <==> IsWordChar(s[pos - 1]);
    }
  }

  /** The closure passes an anchor state to its first target where the anchor is
      met, and not at all elsewhere. */
  lemma {:induction false} AnchorLeadsOn(p: Program, s: Text, pos: nat, n: nat, q: nat, r: int)
    requires WellMade(p) && pos <= |s| && q < |p.states| && p.states[q].kind.EdgeState?
    ensures EpsPath(p, s, pos, n, q, r) <==>
              if n == 0 then r == q
              else AnchorIsMet(p.states[q].kind.anchor, s, pos) && EpsPath(p, s, pos, n - 1, p.states[q].a, r)
  {
    AnchorHolds(p.states[q].kind.anchor, s, pos);
  }

  // --------------------------------------------------------- single characters

  /** What one code point matches a leaf of the pattern; ranges in ascending order
      are a set. */
  lemma {:induction false} CharacterMeans(r: Re, lossy: bool, s: Text, i: nat, j: nat)
    requires Parsed(r)
    ensures r.Chr? && !r.bothCases ==> (Matches(r, lossy, s, i, j) <==> i < |s| && j == i + 1 && s[i] == r.cp)
    ensures r.Chr? && r.bothCases ==>
              && 'a' as nat <= r.cp <= 'z' as nat
              && (Matches(r, lossy, s, i, j) <==>
                    i < |s| && j == i + 1 && (s[i] == r.cp || s[i] == r.cp - 'a' as nat + 'A' as nat))
    ensures r.AnyChr? ==> (Matches(r, lossy, s, i, j) <==> i < |s| && j == i + 1)
    ensures r.Class? && Ascending(r.ranges) ==>
              (Matches(r, lossy, s, i, j) <==>
                 && i < |s| && j == i + 1
                 && (r.negated != exists k :: 0 <= k < |r.ranges| && r.ranges[k].lo <= s[i] <= r.ranges[k].hi))
    ensures r.Edge? && i <= |s| ==> (Matches(r, lossy, s, i, j) <==> i == j && AnchorIsMet(r.anchor, s, i))
  {
    if r.Class? && i < |s| && Ascending(r.ranges) {
      AscendingIsExact(r.ranges, s[i]);
      assert InSome(r.ranges, s[i]) <==>
          exists k :: 0 <= k < |r.ranges| && r.ranges[k].lo <= s[i] <= r.ranges[k].hi by {
        if k :| 0 <= k < |r.ranges| && r.ranges[k].lo <= s[i] <= r.ranges[k].hi {
          assert Covers(r.ranges[k], s[i]);
        }
      }
    }
    if r.Edge? && i <= |s| {
      AnchorHolds(r.anchor, s, i);
    }
  }

  // -------------------------------------------------------------------- cuts

  /** The positions where a match is cut into its parts. */
  ghost predicate Cuts(cuts: seq<nat>, n: nat, i: nat, j: nat) {
    |cuts| == n + 1 && cuts[0] == i && cuts[n] == j
  }

  ghost predicate PartsMatch(ps: seq<Re>, lossy: bool, s: Text, cuts: seq<nat>) {
    |cuts| == |ps| + 1 && forall k :: 0 <= k < |ps| ==> Matches(ps[k], lossy, s, cuts[k], cuts[k + 1])
  }

  lemma {:induction false} SequenceIsCut(ps: seq<Re>, lossy: bool, s: Text, i: nat, j: nat) returns (cuts: seq<nat>)
    requires SeqMatches(ps, lossy, s, i, j)
    ensures Cuts(cuts, |ps|, i, j) && PartsMatch(ps, lossy, s, cuts)
  {
    if ps == [] {
      cuts := [i];
    } else {
      var k := LastPart(ps, lossy, s, i, j);
      var front := SequenceIsCut(ps[..|ps| - 1], lossy, s, i, k);
      cuts := front + [j];
      forall x | 0 <= x < |ps| ensures Matches(ps[x], lossy, s, cuts[x], cuts[x + 1]) {
        if x < |ps| - 1 {
          assert ps[..|ps| - 1][x] == ps[x];
        }
      }
    }
  }

  lemma {:induction false} CutsMakeSequence(ps: seq<Re>, lossy: bool, s: Text, i: nat, j: nat, cuts: seq<nat>)
    requires Cuts(cuts, |ps|, i, j) && PartsMatch(ps, lossy, s, cuts)
    ensures SeqMatches(ps, lossy, s, i, j)
  {
    if ps != [] {
      var n := |ps| - 1;
      forall x | 0 <= x < n ensures Matches(ps[..n][x], lossy, s, cuts[..n + 1][x], cuts[..n + 1][x + 1]) {
        assert ps[..n][x] == ps[x];
      }
      CutsMakeSequence(ps[..n], lossy, s, i, cuts[n], cuts[..n + 1]);
      assert Matches(ps[n], lossy, s, cuts[n], cuts[n + 1]);
    }
  }

  /** A sequence matches what can be cut so that each part matches its piece. */
  lemma {:induction false} SequenceMeans(ps: seq<Re>, s: Text, i: nat, j: nat)
    ensures Matches(Seq(ps), false, s, i, j) <==>
              exists cuts :: Cuts(cuts, |ps|, i, j) && PartsMatch(ps, false, s, cuts)
  {
    if SeqMatches(ps, false, s, i, j) {
      var cuts := SequenceIsCut(ps, false, s, i, j);
    }
    if cuts :| Cuts(cuts, |ps|, i, j) && PartsMatch(ps, false, s, cuts) {
      CutsMakeSequence(ps, false, s, i, j, cuts);
    }
  }

  ghost predicate TurnsMatch(c: Re, n: nat, lossy: bool, s: Text, cuts: seq<nat>) {
    |cuts| == n + 1 && forall k :: 0 <= k < n ==> Matches(c, lossy, s, cuts[k], cuts[k + 1])
  }

  lemma {:induction false} RepetitionIsCut(c: Re, n: nat, lossy: bool, s: Text, i: nat, j: nat)
      returns (cuts: seq<nat>)
    requires Repeats(c, n, lossy, s, i, j)
    ensures Cuts(cuts, n, i, j) && TurnsMatch(c, n, lossy, s, cuts)
  {
    if n == 0 {
      cuts := [i];
    } else {
      var k := LastRepeat(c, n, lossy, s, i, j);
      var front := RepetitionIsCut(c, n - 1, lossy, s, i, k);
      cuts := front + [j];
    }
  }

  lemma {:induction false} CutsMakeRepetition(c: Re, n: nat, lossy: bool, s: Text, i: nat, j: nat, cuts: seq<nat>)
    requires Cuts(cuts, n, i, j) && TurnsMatch(c, n, lossy, s, cuts)
    ensures Repeats(c, n, lossy, s, i, j)
  {
    if n > 0 {
      CutsMakeRepetition(c, n - 1, lossy, s, i, cuts[n - 1], cuts[..n]);
      assert Matches(c, lossy, s, cuts[n - 1], cuts[n]);
    }
  }

  lemma {:induction false} SomeTurns(r: Re, s: Text, i: nat, j: nat) returns (n: nat)
    requires r.Quant? && Matches(r, false, s, i, j)
    ensures r.min <= n && (r.max == -1 || n <= r.max) && Repeats(r.child, n, false, s, i, j)
  {
    n :| r.min <= n && (r.max == -1 || n <= r.max) && Repeats(r.child, n, false, s, i, j);
  }

  /** A repetition matches what can be cut into an allowed number of turns. */
  lemma {:induction false} RepetitionMeans(c: Re, min: nat, max: int, s: Text, i: nat, j: nat)
    ensures Matches(Quant(c, min, max), false, s, i, j) <==>
              exists cuts :: && min < |cuts| && (max == -1 || |cuts| <= max + 1)
                             && Cuts(cuts, |cuts| - 1, i, j) && TurnsMatch(c, |cuts| - 1, false, s, cuts)
  {
    if Matches(Quant(c, min, max), false, s, i, j) {
      var n := SomeTurns(Quant(c, min, max), s, i, j);
      var cuts := RepetitionIsCut(c, n, false, s, i, j);
      assert |cuts| - 1 == n;
    }
    if cuts :| && min < |cuts| && (max == -1 || |cuts| <= max + 1)
               && Cuts(cuts, |cuts| - 1, i, j) && TurnsMatch(c, |cuts| - 1, false, s, cuts) {
      CutsMakeRepetition(c, |cuts| - 1, false, s, i, j, cuts);
    }
  }

  /** A match that starts in the text ends in it, not before its start. */
  lemma {:induction false} MatchStaysInside(r: Re, lossy: bool, s: Text, i: nat, j: nat)
    requires i <= |s| && Matches(r, lossy, s, i, j)
    ensures i <= j <= |s|
    decreases r, 0
  {
    match r
    case Seq(ps) => PartsStayInside(ps, lossy, s, i, j);
    case Alt(bs) =>
      var x :| 0 <= x < |bs| && Matches(bs[x], lossy, s, i, j);
      MatchStaysInside(bs[x], lossy, s, i, j);
    case Quant(c, min, max) =>
      var n: nat :| min <= n && (max == -1 || n <= max) && Repeats(c, n, lossy, s, i, j);
      TurnsStayInside(c, n, lossy, s, i, j);
    case _ =>
  }

  lemma {:induction false} PartsStayInside(ps: seq<Re>, lossy: bool, s: Text, i: nat, j: nat)
    requires i <= |s| && SeqMatches(ps, lossy, s, i, j)
    ensures i <= j <= |s|
    decreases ps, 0
  {
    if ps != [] {
      var k := LastPart(ps, lossy, s, i, j);
      PartsStayInside(ps[..|ps| - 1], lossy, s, i, k);
      MatchStaysInside(ps[|ps| - 1], lossy, s, k, j);
    }
  }

  lemma {:induction false} TurnsStayInside(c: Re, n: nat, lossy: bool, s: Text, i: nat, j: nat)
    requires i <= |s| && Repeats(c, n, lossy, s, i, j)
    ensures i <= j <= |s|
    decreases c, n + 1
  {
    if n > 0 {
      var k := LastRepeat(c, n, lossy, s, i, j);
      TurnsStayInside(c, n - 1, lossy, s, i, k);
      MatchStaysInside(c, lossy, s, k, j);
    }
  }

  // -------------------------------------------------------- anchored patterns

  /** `^r` */
  function FromStart(r: Re): Re {
    Seq([Edge(TextStart), r])
  }

  /** `r$` */
  function ToEnd(r: Re): Re {
    Seq([r, Edge(TextEnd)])
  }

  /** `^r$` */
  function Whole(r: Re): Re {
    Seq([Edge(TextStart), r, Edge(TextEnd)])
  }

  /** Two parts: one position between them. */
  lemma {:induction false} TwoParts(a: Re, b: Re, lossy: bool, s: Text, i: nat, j: nat)
    ensures SeqMatches([a, b], lossy, s, i, j) <==>
              exists k: nat :: Matches(a, lossy, s, i, k) && Matches(b, lossy, s, k, j)
  {
    if SeqMatches([a, b], lossy, s, i, j) {
      var cuts := SequenceIsCut([a, b], lossy, s, i, j);
      assert Matches([a, b][0], lossy, s, cuts[0], cuts[1]) && Matches([a, b][1], lossy, s, cuts[1], cuts[2]);
    }
    if k: nat :| Matches(a, lossy, s, i, k) && Matches(b, lossy, s, k, j) {
      CutsMakeSequence([a, b], lossy, s, i, j, [i, k, j]);
    }
  }

  /** A match of `^r` is a match of `r` at the start of the text; once compiled it
      is lost if `r` has no state. */
  lemma {:induction false} FromStartMeans(r: Re, lossy: bool, s: Text, i: nat, j: nat)
    requires i <= |s|
    ensures Matches(FromStart(r), lossy, s, i, j) <==> i == 0 && Matches(r, lossy, s, 0, j) && (lossy ==> !Eps(r))
  {
    TwoParts(Edge(TextStart), r, lossy, s, i, j);
    TailLost([Edge(TextStart), r]);
    CharacterMeans(Edge(TextStart), lossy, s, i, i);
  }

  /** A match of `r$` is a match of `r` that ends at the end of the text. */
  lemma {:induction false} ToEndMeans(r: Re, lossy: bool, s: Text, i: nat, j: nat)
    requires i <= |s|
    ensures Matches(ToEnd(r), lossy, s, i, j) <==> j == |s| && Matches(r, lossy, s, i, |s|)
  {
    TwoParts(r, Edge(TextEnd), lossy, s, i, j);
    TailLost([r, Edge(TextEnd)]);
    if k: nat :| Matches(r, lossy, s, i, k) && Matches(Edge(TextEnd), lossy, s, k, j) {
      MatchStaysInside(r, lossy, s, i, k);
      CharacterMeans(Edge(TextEnd), lossy, s, k, j);
    }
    CharacterMeans(Edge(TextEnd), lossy, s, |s|, |s|);
  }

  /** Of parts one of which may be without states, which lose their tail. */
  lemma {:induction false} TailLost(ps: seq<Re>)
    requires |ps| == 2 && (!Eps(ps[0]) || !Eps(ps[1]))
    ensures LosesTail(ps) <==> !Eps(ps[0]) && Eps(ps[1])
  {
  }

  /** `^r$` matches in a text if and only if `r` matches all of it. */
  lemma {:induction false} WholeMeans(r: Re, lossy: bool, s: Text, i: nat, j: nat)
    requires i <= |s|
    ensures Matches(Whole(r), lossy, s, i, j) <==>
              i == 0 && j == |s| && Matches(r, lossy, s, 0, |s|) && (lossy ==> !Eps(r))
  {
    var ps := [Edge(TextStart), r, Edge(TextEnd)];
    assert LosesTail(ps) <==> Eps(r) by {
      assert !Eps(ps[0]) && !Eps(ps[2]);
    }
    CharacterMeans(Edge(TextStart), lossy, s, i, i);
    CharacterMeans(Edge(TextEnd), lossy, s, |s|, |s|);
    if SeqMatches(ps, lossy, s, i, j) {
      var cuts := SequenceIsCut(ps, lossy, s, i, j);
      assert Matches(ps[0], lossy, s, i, cuts[1]) && Matches(ps[1], lossy, s, cuts[1], cuts[2]);
      assert Matches(ps[2], lossy, s, cuts[2], j);
      MatchStaysInside(r, lossy, s, i, cuts[2]);
      CharacterMeans(Edge(TextEnd), lossy, s, cuts[2], j);
    }
    if i == 0 && j == |s| && Matches(r, lossy, s, 0, |s|) {
      CutsMakeSequence(ps, lossy, s, 0, |s|, [0, 0, |s|, |s|]);
    }
  }

  /** Searching for `^r$`: the search finds it if and only if `r` matches the whole
      text, where every state has its turn. */
  lemma {:induction false} WholeIsFoundIff(r: Re, p: Program, s: Text)
    requires WellMade(p) && forall i: nat, j: nat :: Accepts(p, s, i, j) <==> Matches(Whole(r), true, s, i, j)
    requires Clean(r) && !Eps(r) && TurnsTaken(p, s)
    ensures Finds(p, s) <==> Matches(r, false, s, 0, |s|)
  {
    WholeIsClean(r);
    SearchFindsPattern(Whole(r), p, s);
    WholeSomewhere(r, s);
  }

  lemma {:induction false} WholeIsClean(r: Re)
    ensures Clean(Whole(r)) <==> Clean(r) && !Eps(r)
    ensures Linear(Whole(r)) <==> Linear(r)
  {
    var ps := [Edge(TextStart), r, Edge(TextEnd)];
    assert !Eps(ps[0]) && ps[1] == r && !Eps(ps[2]);
    assert Clean(ps[0]) && Clean(ps[2]) && Linear(ps[0]) && Linear(ps[2]);
    assert LosesTail(ps) <==> Eps(ps[1]);
  }

  lemma {:induction false} WholeSomewhere(r: Re, s: Text)
    ensures (exists i: nat, j: nat :: i <= |s| && Matches(Whole(r), false, s, i, j)) <==>
            Matches(r, false, s, 0, |s|)
  {
    hide Matches, Whole;
    if i: nat, j: nat :| i <= |s| && Matches(Whole(r), false, s, i, j) {
      WholeMeans(r, false, s, i, j);
    }
    WholeMeans(r, false, s, 0, |s|);
  }

  /** From the tree of `r` to the answer: patterns without alternatives, options,
      loops and lost tails are found in the whole text exactly when they match it. */
  method SearchWhole(r: Re, s: Text) returns (ok: bool, matched: bool)
    requires Parsed(r)
    ensures ok <==> Compilable(r) && Size(r) + 3 <= MAX_STATES
    ensures ok && matched ==> Matches(r, false, s, 0, |s|)
    ensures ok && Clean(r) && !Eps(r) && Linear(r) ==> (matched <==> Matches(r, false, s, 0, |s|))
  {
    var ps := [Edge(TextStart), r, Edge(TextEnd)];
    assert ps[0] == Edge(TextStart) && ps[1] == r && ps[2] == Edge(TextEnd);
    WholeSize(r);
    ok, matched := SearchPattern(Whole(r), s);
    WholeIsClean(r);
    WholeSomewhere(r, s);
  }

  lemma {:induction false} WholeSize(r: Re)
    requires Parsed(r)
    ensures Parsed(Whole(r)) && Size(Whole(r)) == Size(r) + 2
    ensures Compilable(Whole(r)) <==> Compilable(r)
  {
    var a, z := Edge(TextStart), Edge(TextEnd);
    var ps := [a, r, z];
    assert ps[0] == a && ps[1] == r && ps[2] == z;
    assert ps[..2] == [a, r] && [a, r][..1] == [a] && [a][..0] == [];
    assert Parsed(ps[0]) && Parsed(ps[2]) && Compilable(ps[0]) && Compilable(ps[2]);
    assert Compilable(Whole(r)) ==> Compilable(ps[1]);
    assert SizeOf([a]) == 1 && SizeOf([a, r]) == 1 + Size(r);
    assert SizeOf(ps) == SizeOf(ps[..2]) + Size(ps[2]) && Size(z) == 1;
  }
}
