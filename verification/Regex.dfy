/** The syntax trees of patterns, what they mean, and what they come to mean
    once compiled.

    A pattern is judged between two positions of a text of code points, so that
    anchors see the whole text. */
module Regex {
  import opened Ranges

  datatype Anchor = TextStart | TextEnd | WordEdge | NotWordEdge

  /** `max == -1` stands for no upper bound. */
  datatype Re =
    | Chr(cp: nat, bothCases: bool)
    | AnyChr
    | Class(ranges: seq<Range>, negated: bool)
    | Edge(anchor: Anchor)
    | Seq(parts: seq<Re>)
    | Alt(branches: seq<Re>)
    | Quant(child: Re, min: nat, max: int)

  type Text = seq<nat>

  /** What the pattern parser guarantees of a tree. */
  predicate Parsed(r: Re) {
    match r
    case Chr(cp, both) => both ==> 97 <= cp <= 122
    case Seq(ps) => forall x :: 0 <= x < |ps| ==> Parsed(ps[x])
    case Alt(bs) => forall x :: 0 <= x < |bs| ==> Parsed(bs[x])
    case Quant(c, min, max) => Parsed(c) && (max == -1 || min <= max)
    case _ => true
  }

  predicate IsWord(c: nat) {
    97 <= c <= 122 || 65 <= c <= 90 || 48 <= c <= 57 || c == 95
  }

  predicate AtWordEdge(s: Text, i: nat) {
    (0 < i <= |s| && IsWord(s[i - 1])) != (i < |s| && IsWord(s[i]))
  }

  predicate Holds(a: Anchor, s: Text, i: nat) {
    match a
    case TextStart => i == 0
    case TextEnd => i >= |s|
    case WordEdge => AtWordEdge(s, i)
    case NotWordEdge => !AtWordEdge(s, i)
  }

  /** One code point passes a leaf. */
  predicate Passes(any: bool, ranges: seq<Range>, negated: bool, c: nat) {
    any || Hit(ranges, c) != negated
  }

  function LeafRanges(r: Re): seq<Range>
    requires Parsed(r)
  {
    match r
    case Chr(cp, both) => if both then [Range(cp - 32, cp - 32), Range(cp, cp)] else [Range(cp, cp)]
    case Class(rs, _) => rs
    case _ => []
  }

  predicate IsLeaf(r: Re) {
    r.Chr? || r.AnyChr? || r.Class?
  }

  /** The code points a leaf matches. */
  predicate Meets(r: Re, c: nat) {
    match r
    case Chr(cp, both) => c == cp || (both && c + 32 == cp)
    case AnyChr => true
    case Class(rs, negated) => Hit(rs, c) != negated
    case _ => false
  }

  /** The compiler adds no state for these: they match the empty text only. */
  predicate Eps(r: Re) {
    match r
    case Seq(ps) => forall x :: 0 <= x < |ps| ==> Eps(ps[x])
    case Alt(bs) => |bs| == 1 && Eps(bs[0])
    case Quant(c, _, max) => max == 0 || Eps(c)
    case _ => false
  }

  /** A part with no state of its own follows one that has states. */
  predicate LosesTail(ps: seq<Re>) {
    exists a, b :: 0 <= a < b < |ps| && !Eps(ps[a]) && Eps(ps[b])
  }

  /** No sequence anywhere loses its tail. */
  predicate Clean(r: Re) {
    match r
    case Seq(ps) => !LosesTail(ps) && forall x :: 0 <= x < |ps| ==> Clean(ps[x])
    case Alt(bs) => forall x :: 0 <= x < |bs| ==> Clean(bs[x])
    case Quant(c, _, _) => Clean(c)
    case _ => true
  }

  /** `r` matches `s` from position `i` to position `j`.  When `lossy`, a
      sequence that loses its tail matches nothing: what the compiled pattern
      does. */
  ghost predicate Matches(r: Re, lossy: bool, s: Text, i: nat, j: nat)
    decreases r, 0
  {
    match r
    case Edge(a) => i == j && Holds(a, s, i)
    case Seq(ps) => (lossy ==> !LosesTail(ps)) && SeqMatches(ps, lossy, s, i, j)
    case Alt(bs) => exists x :: 0 <= x < |bs| && Matches(bs[x], lossy, s, i, j)
    case Quant(c, min, max) => exists n: nat :: min <= n && (max == -1 || n <= max) && Repeats(c, n, lossy, s, i, j)
    case _ => i < |s| && j == i + 1 && Meets(r, s[i])
  }

  ghost predicate SeqMatches(ps: seq<Re>, lossy: bool, s: Text, i: nat, j: nat)
    decreases ps, 0
  {
    if ps == [] then i == j
    else
      var last, rest := ps[|ps| - 1], ps[..|ps| - 1];
      exists k: nat :: SeqMatches(rest, lossy, s, i, k) && Matches(last, lossy, s, k, j)
  }

  ghost predicate Repeats(c: Re, n: nat, lossy: bool, s: Text, i: nat, j: nat)
    decreases c, n + 1
  {
    if n == 0 then i == j
    else exists k: nat :: Repeats(c, n - 1, lossy, s, i, k) && Matches(c, lossy, s, k, j)
  }

  lemma {:induction false} LastPart(ps: seq<Re>, lossy: bool, s: Text, i: nat, j: nat) returns (k: nat)
    requires ps != [] && SeqMatches(ps, lossy, s, i, j)
    ensures SeqMatches(ps[..|ps| - 1], lossy, s, i, k) && Matches(ps[|ps| - 1], lossy, s, k, j)
  {
    k :| SeqMatches(ps[..|ps| - 1], lossy, s, i, k) && Matches(ps[|ps| - 1], lossy, s, k, j);
  }

  lemma {:induction false} LastRepeat(c: Re, n: nat, lossy: bool, s: Text, i: nat, j: nat) returns (k: nat)
    requires n > 0 && Repeats(c, n, lossy, s, i, j)
    ensures Repeats(c, n - 1, lossy, s, i, k) && Matches(c, lossy, s, k, j)
  {
    k :| Repeats(c, n - 1, lossy, s, i, k) && Matches(c, lossy, s, k, j);
  }

  // ------------------------------------------------------- lossy and faithful

  /** Compiling never adds a match. */
  lemma {:induction false} LossyIsSound(r: Re, s: Text, i: nat, j: nat)
    requires Matches(r, true, s, i, j)
    ensures Matches(r, false, s, i, j)
    decreases r, 0
  {
    match r
    case Seq(ps) => SeqLossyIsSound(ps, s, i, j);
    case Alt(bs) =>
      var x :| 0 <= x < |bs| && Matches(bs[x], true, s, i, j);
      LossyIsSound(bs[x], s, i, j);
    case Quant(c, min, max) =>
      var n: nat :| min <= n && (max == -1 || n <= max) && Repeats(c, n, true, s, i, j);
      RepeatsLossyIsSound(c, n, s, i, j);
    case _ =>
  }

  lemma {:induction false} SeqLossyIsSound(ps: seq<Re>, s: Text, i: nat, j: nat)
    requires SeqMatches(ps, true, s, i, j)
    ensures SeqMatches(ps, false, s, i, j)
    decreases ps, 0
  {
    if ps != [] {
      var k: nat :| SeqMatches(ps[..|ps| - 1], true, s, i, k) && Matches(ps[|ps| - 1], true, s, k, j);
      SeqLossyIsSound(ps[..|ps| - 1], s, i, k);
      LossyIsSound(ps[|ps| - 1], s, k, j);
    }
  }

  lemma {:induction false} RepeatsLossyIsSound(c: Re, n: nat, s: Text, i: nat, j: nat)
    requires Repeats(c, n, true, s, i, j)
    ensures Repeats(c, n, false, s, i, j)
    decreases c, n + 1
  {
    if n > 0 {
      var k: nat :| Repeats(c, n - 1, true, s, i, k) && Matches(c, true, s, k, j);
      RepeatsLossyIsSound(c, n - 1, s, i, k);
      LossyIsSound(c, s, k, j);
    }
  }

  /** A clean pattern loses no match. */
  lemma {:induction false} CleanIsComplete(r: Re, s: Text, i: nat, j: nat)
    requires Clean(r) && Matches(r, false, s, i, j)
    ensures Matches(r, true, s, i, j)
    decreases r, 0
  {
    match r
    case Seq(ps) => SeqCleanIsComplete(ps, s, i, j);
    case Alt(bs) =>
      var x :| 0 <= x < |bs| && Matches(bs[x], false, s, i, j);
      CleanIsComplete(bs[x], s, i, j);
    case Quant(c, min, max) =>
      var n: nat :| min <= n && (max == -1 || n <= max) && Repeats(c, n, false, s, i, j);
      RepeatsCleanIsComplete(c, n, s, i, j);
    case _ =>
  }

  lemma {:induction false} SeqCleanIsComplete(ps: seq<Re>, s: Text, i: nat, j: nat)
    requires (forall x :: 0 <= x < |ps| ==> Clean(ps[x])) && SeqMatches(ps, false, s, i, j)
    ensures SeqMatches(ps, true, s, i, j)
    decreases ps, 0
  {
    if ps != [] {
      var k: nat :| SeqMatches(ps[..|ps| - 1], false, s, i, k) && Matches(ps[|ps| - 1], false, s, k, j);
      SeqCleanIsComplete(ps[..|ps| - 1], s, i, k);
      CleanIsComplete(ps[|ps| - 1], s, k, j);
    }
  }

  lemma {:induction false} RepeatsCleanIsComplete(c: Re, n: nat, s: Text, i: nat, j: nat)
    requires Clean(c) && Repeats(c, n, false, s, i, j)
    ensures Repeats(c, n, true, s, i, j)
    decreases c, n + 1
  {
    if n > 0 {
      var k: nat :| Repeats(c, n - 1, false, s, i, k) && Matches(c, false, s, k, j);
      RepeatsCleanIsComplete(c, n - 1, s, i, k);
      CleanIsComplete(c, s, k, j);
    }
  }

  /** A sequence of clean parts is compiled faithfully exactly when it keeps its
      tail: what it still matches is what it should, and only then. */
  lemma {:induction false} SequenceIsFaithfulIff(ps: seq<Re>, s: Text, i: nat, j: nat)
    requires forall x :: 0 <= x < |ps| ==> Clean(ps[x])
    ensures Matches(Seq(ps), true, s, i, j) <==> Matches(Seq(ps), false, s, i, j) && !LosesTail(ps)
  {
    if SeqMatches(ps, true, s, i, j) {
      SeqLossyIsSound(ps, s, i, j);
    }
    if SeqMatches(ps, false, s, i, j) {
      SeqCleanIsComplete(ps, s, i, j);
    }
  }

  /** `a()` should match "a", and matches nothing once compiled. */
  lemma {:induction false} GroupAfterLetterIsLost()
    ensures var r := Seq([Chr(97, false), Alt([Seq([])])]);
            Matches(r, false, [97], 0, 1) && forall s, i, j :: !Matches(r, true, s, i, j)
  {
    var a, g := Chr(97, false), Alt([Seq([])]);
    var ps := [a, g];
    assert !Eps(ps[0]) && Eps(g.branches[0]) && Eps(ps[1]);
    assert SeqMatches([], false, [97], 0, 0) && SeqMatches([], false, [97], 1, 1);
    assert [a][..0] == [] && ps[..1] == [a];
    assert SeqMatches([a], false, [97], 0, 1) by {
      assert Matches([a][0], false, [97], 0, 1);
    }
    assert Matches(ps[1], false, [97], 1, 1) by {
      assert Matches(g.branches[0], false, [97], 1, 1);
    }
  }

  // ----------------------------------------------------------- empty patterns

  /** What has no state matches the empty text everywhere and nothing else. */
  lemma {:induction false} EpsMatches(r: Re, lossy: bool, s: Text, i: nat, j: nat)
    requires Parsed(r) && Eps(r)
    ensures Matches(r, lossy, s, i, j) <==> i == j
    decreases r, 0
  {
    match r
    case Seq(ps) => SeqEpsMatches(ps, lossy, s, i, j);
    case Alt(bs) => EpsMatches(bs[0], lossy, s, i, j);
    case Quant(c, min, max) =>
      if i == j {
        RepeatsEps(c, if max == 0 then 0 else min, lossy, s, i, j);
      } else {
        forall n: nat | min <= n && (max == -1 || n <= max) ensures !Repeats(c, n, lossy, s, i, j) {
          RepeatsEps(c, n, lossy, s, i, j);
        }
      }
  }

  lemma {:induction false} SeqEpsMatches(ps: seq<Re>, lossy: bool, s: Text, i: nat, j: nat)
    requires forall x :: 0 <= x < |ps| ==> Parsed(ps[x]) && Eps(ps[x])
    ensures SeqMatches(ps, lossy, s, i, j) <==> i == j
    decreases ps, 0
  {
    if ps != [] {
      var last, rest := ps[|ps| - 1], ps[..|ps| - 1];
      SeqEpsMatches(rest, lossy, s, i, i);
      EpsMatches(last, lossy, s, i, j);
      if SeqMatches(ps, lossy, s, i, j) {
        var k := LastPart(ps, lossy, s, i, j);
        SeqEpsMatches(rest, lossy, s, i, k);
      }
    }
  }

  lemma {:induction false} RepeatsEps(c: Re, n: nat, lossy: bool, s: Text, i: nat, j: nat)
    requires Parsed(c) && (n > 0 ==> Eps(c))
    ensures Repeats(c, n, lossy, s, i, j) <==> i == j
    decreases c, n + 1
  {
    if n > 0 {
      RepeatsEps(c, n - 1, lossy, s, i, i);
      EpsMatches(c, lossy, s, i, j);
      if Repeats(c, n, lossy, s, i, j) {
        var k := LastRepeat(c, n, lossy, s, i, j);
        RepeatsEps(c, n - 1, lossy, s, i, k);
      }
    }
  }

  // ------------------------------------------------- growing patterns by parts

  /** A sequence with one more part. */
  lemma {:induction false} SeqSnoc(ps: seq<Re>, p: Re, s: Text, i: nat, j: nat)
    requires Parsed(Seq(ps)) && Parsed(p)
    ensures Matches(Seq(ps + [p]), true, s, i, j) <==>
              (if Eps(Seq(ps)) then Matches(p, true, s, i, j)
               else !Eps(p) && exists k: nat :: Matches(Seq(ps), true, s, i, k) && Matches(p, true, s, k, j))
  {
    var all := ps + [p];
    assert all[..|all| - 1] == ps && all[|ps|] == p;
    assert forall x :: 0 <= x < |ps| ==> all[x] == ps[x];
    if Eps(Seq(ps)) {
      SeqEpsMatches(ps, true, s, i, i);
      assert !LosesTail(all);
      if SeqMatches(all, true, s, i, j) {
        var k := LastPart(all, true, s, i, j);
        SeqEpsMatches(ps, true, s, i, k);
      }
    } else {
      var a :| 0 <= a < |ps| && !Eps(ps[a]);
      if Eps(p) {
        assert !Eps(all[a]) && Eps(all[|ps|]);
      } else if LosesTail(ps) {
        var x, y :| 0 <= x < y < |ps| && !Eps(ps[x]) && Eps(ps[y]);
        assert !Eps(all[x]) && Eps(all[y]);
      } else {
        assert !LosesTail(all);
        SeqUnfolds(ps, p, s, i, j);
      }
    }
  }

  lemma {:induction false} SeqUnfolds(ps: seq<Re>, p: Re, s: Text, i: nat, j: nat)
    requires !LosesTail(ps)
    ensures SeqMatches(ps + [p], true, s, i, j) <==>
              exists k: nat :: Matches(Seq(ps), true, s, i, k) && Matches(p, true, s, k, j)
  {
    var all := ps + [p];
    assert all[..|all| - 1] == ps && all[|ps|] == p;
    if SeqMatches(all, true, s, i, j) {
      var k := LastPart(all, true, s, i, j);
      assert Matches(Seq(ps), true, s, i, k);
    }
    if exists k: nat :: Matches(Seq(ps), true, s, i, k) && Matches(p, true, s, k, j) {
      var k: nat :| Matches(Seq(ps), true, s, i, k) && Matches(p, true, s, k, j);
      assert SeqMatches(ps, true, s, i, k);
    }
  }

  lemma {:induction false} QuantMeans(r: Re, s: Text, i: nat, j: nat) returns (n: nat)
    requires r.Quant? && Matches(r, true, s, i, j)
    ensures r.min <= n && (r.max == -1 || n <= r.max) && Repeats(r.child, n, true, s, i, j)
  {
    n :| r.min <= n && (r.max == -1 || n <= r.max) && Repeats(r.child, n, true, s, i, j);
  }

  lemma {:induction false} ExactlyRepeats(c: Re, n: nat, s: Text, i: nat, j: nat)
    ensures Matches(Quant(c, n, n), true, s, i, j) <==> Repeats(c, n, true, s, i, j)
  {
    if Matches(Quant(c, n, n), true, s, i, j) {
      var m := QuantMeans(Quant(c, n, n), s, i, j);
    }
  }

  /** One more mandatory repetition. */
  lemma {:induction false} RepeatSnoc(c: Re, n: nat, s: Text, i: nat, j: nat)
    ensures Matches(Quant(c, n + 1, n + 1), true, s, i, j) <==>
              exists k: nat :: Matches(Quant(c, n, n), true, s, i, k) && Matches(c, true, s, k, j)
  {
    ExactlyRepeats(c, n + 1, s, i, j);
    if Repeats(c, n + 1, true, s, i, j) {
      var k: nat :| Repeats(c, n, true, s, i, k) && Matches(c, true, s, k, j);
      ExactlyRepeats(c, n, s, i, k);
    }
    if exists k: nat :: Matches(Quant(c, n, n), true, s, i, k) && Matches(c, true, s, k, j) {
      var k: nat :| Matches(Quant(c, n, n), true, s, i, k) && Matches(c, true, s, k, j);
      ExactlyRepeats(c, n, s, i, k);
    }
  }

  /** One more optional repetition. */
  lemma {:induction false} OptionSnoc(c: Re, min: nat, max: nat, s: Text, i: nat, j: nat)
    requires min <= max
    ensures Matches(Quant(c, min, max + 1), true, s, i, j) <==>
              || Matches(Quant(c, min, max), true, s, i, j)
              || exists k: nat :: Matches(Quant(c, min, max), true, s, i, k) && Matches(c, true, s, k, j)
  {
    if Matches(Quant(c, min, max + 1), true, s, i, j) {
      var n := QuantMeans(Quant(c, min, max + 1), s, i, j);
      if n > max {
        if n > min {
          var k: nat :| Repeats(c, n - 1, true, s, i, k) && Matches(c, true, s, k, j);
          assert Matches(Quant(c, min, max), true, s, i, k);
        }
      }
    }
    if Matches(Quant(c, min, max), true, s, i, j) {
      var n := QuantMeans(Quant(c, min, max), s, i, j);
    }
    if exists k: nat :: Matches(Quant(c, min, max), true, s, i, k) && Matches(c, true, s, k, j) {
      var k: nat :| Matches(Quant(c, min, max), true, s, i, k) && Matches(c, true, s, k, j);
      var n := QuantMeans(Quant(c, min, max), s, i, k);
      assert Repeats(c, n + 1, true, s, i, j);
    }
  }

  /** Repetitions split anywhere. */
  lemma {:induction false} RepeatsAdd(c: Re, m: nat, n: nat, s: Text, i: nat, k: nat, j: nat)
    requires Repeats(c, m, true, s, i, k) && Repeats(c, n, true, s, k, j)
    ensures Repeats(c, m + n, true, s, i, j)
    decreases n
  {
    if n > 0 {
      var x: nat :| Repeats(c, n - 1, true, s, k, x) && Matches(c, true, s, x, j);
      RepeatsAdd(c, m, n - 1, s, i, k, x);
    }
  }

  lemma {:induction false} RepeatsSplit(c: Re, m: nat, n: nat, s: Text, i: nat, j: nat) returns (k: nat)
    requires Repeats(c, m + n, true, s, i, j)
    ensures Repeats(c, m, true, s, i, k) && Repeats(c, n, true, s, k, j)
    decreases n
  {
    if n == 0 {
      k := j;
    } else {
      var x: nat :| Repeats(c, m + n - 1, true, s, i, x) && Matches(c, true, s, x, j);
      k := RepeatsSplit(c, m, n - 1, s, i, x);
    }
  }

  /** At least `min` repetitions: exactly `min`, then any number. */
  lemma {:induction false} AtLeast(c: Re, min: nat, s: Text, i: nat, j: nat)
    ensures Matches(Quant(c, min, -1), true, s, i, j) <==>
              exists k: nat :: Matches(Quant(c, min, min), true, s, i, k) && Matches(Quant(c, 0, -1), true, s, k, j)
  {
    if Matches(Quant(c, min, -1), true, s, i, j) {
      var n := QuantMeans(Quant(c, min, -1), s, i, j);
      var k := RepeatsSplit(c, min, n - min, s, i, j);
      assert Matches(Quant(c, min, min), true, s, i, k) && Matches(Quant(c, 0, -1), true, s, k, j);
    }
    if exists k: nat :: Matches(Quant(c, min, min), true, s, i, k) && Matches(Quant(c, 0, -1), true, s, k, j) {
      var k: nat :| Matches(Quant(c, min, min), true, s, i, k) && Matches(Quant(c, 0, -1), true, s, k, j);
      ExactlyRepeats(c, min, s, i, k);
      var n := QuantMeans(Quant(c, 0, -1), s, k, j);
      RepeatsAdd(c, min, n, s, i, k, j);
    }
  }
}
