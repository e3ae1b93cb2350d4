/** What the scores of a matching count, and what an optimal one is, written out. */
module MatchingLaws {
  import opened Wrappers
  import opened Sums
  import opened OneToOneAssignment
  import SelectionMetrics

  /** The matched targets whose pair reaches the threshold. */
  function Qualifying(m: Matching, sim: Table, threshold: Option<real>): set<nat> {
    set t: nat | t < |m| && m[t].Some? && threshold.Some? && sim(t, m[t].value) >= threshold.value
  }

  function Matched(m: Matching): set<nat> {
    set t: nat | t < |m| && m[t].Some?
  }

  function PairSimilarity(m: Matching, sim: Table): nat -> real {
    (t: nat) => if t < |m| && m[t].Some? then sim(t, m[t].value) else 0.0
  }

  lemma {:induction false} SumsAgree(s: set<nat>, f: nat -> real, g: nat -> real)
    requires forall i :: i in s ==> f(i) == g(i)
    ensures Sum(s, f) == Sum(s, g)
  {
    if s != {} {
      var i :| i in s;
      var rest := s - {i};
      SumsAgree(rest, f, g);
      SumAdd(rest, i, f);
      SumAdd(rest, i, g);
      assert s == rest + {i};
    }
  }

  lemma {:induction false} HitsMean(m: Matching, sim: Table, threshold: Option<real>)
    ensures ScoreOf(m, sim, threshold).hits == |Qualifying(m, sim, threshold)|
  {
    if m == [] {
      assert Qualifying(m, sim, threshold) == {};
    } else {
      var n: nat := |m| - 1;
      HitsMean(m[..n], sim, threshold);
      assert Qualifying(m, sim, threshold) == Qualifying(m[..n], sim, threshold)
           + if m[n].Some? && threshold.Some? && sim(n, m[n].value) >= threshold.value then {n} else {};
    }
  }

  lemma {:induction false} TotalMeans(m: Matching, sim: Table, threshold: Option<real>)
    ensures ScoreOf(m, sim, threshold).total == Sum(Matched(m), PairSimilarity(m, sim))
  {
    if m == [] {
      assert Matched(m) == {};
    } else {
      var n: nat := |m| - 1;
      TotalMeans(m[..n], sim, threshold);
      MatchedStep(m);
      SumsAgree(Matched(m[..n]), PairSimilarity(m[..n], sim), PairSimilarity(m, sim));
      if m[n].Some? { SumAdd(Matched(m[..n]), n, PairSimilarity(m, sim)); }
    }
  }

  lemma MatchedStep(m: Matching)
    requires m != []
    ensures |m| - 1 !in Matched(m[..|m| - 1])
    ensures m[|m| - 1].Some? ==> Matched(m) == Matched(m[..|m| - 1]) + {|m| - 1}
    ensures m[|m| - 1].None? ==> Matched(m) == Matched(m[..|m| - 1])
  {
  }

  /** The score: how many pairs qualify, and the similarities of all pairs added up. */
  lemma ScoreMeans(m: Matching, sim: Table, threshold: Option<real>)
    ensures ScoreOf(m, sim, threshold).hits == |Qualifying(m, sim, threshold)|
    ensures ScoreOf(m, sim, threshold).total == Sum(Matched(m), PairSimilarity(m, sim))
  {
    HitsMean(m, sim, threshold);
    TotalMeans(m, sim, threshold);
  }

  /** An optimal matching has the most pairs possible; none with as many has more qualifying pairs, or as many of
      those and a greater total. */
  lemma OptimalMeans(m: Matching, sim: Table, targets: nat, elements: nat, threshold: Option<real>, other: Matching)
    requires Optimal(m, sim, targets, elements, threshold) && IsMatching(other, targets, elements)
    ensures |Matched(m)| == if targets < elements then targets else elements
    ensures |Matched(other)| <= |Matched(m)|
    ensures |Matched(other)| == |Matched(m)| ==>
      && |Qualifying(other, sim, threshold)| <= |Qualifying(m, sim, threshold)|
      && (|Qualifying(other, sim, threshold)| == |Qualifying(m, sim, threshold)| ==>
            Sum(Matched(other), PairSimilarity(other, sim)) <= Sum(Matched(m), PairSimilarity(m, sim)))
  {
    ScoreMeans(m, sim, threshold);
    ScoreMeans(other, sim, threshold);
    MatchingSize(other, targets, elements);
    assert Matched(m) == Mask(m) && Matched(other) == Mask(other);
  }

  /** `matched_recall` counts the targets whose score, 0.0 when unmatched, reaches the threshold. */
  function Reaching(m: Matching, sim: Table, threshold: real): set<nat> {
    set t: nat | t < |m| && PairSimilarity(m, sim)(t) >= threshold
  }

  lemma {:induction false} RecalledMeans(m: Matching, sim: Table, threshold: real)
    ensures SelectionMetrics.Recalled(m, sim, threshold) == |Reaching(m, sim, threshold)|
  {
    if m == [] {
      assert Reaching(m, sim, threshold) == {};
    } else {
      var n: nat := |m| - 1;
      RecalledMeans(m[..n], sim, threshold);
      forall t: nat | t < n ensures PairSimilarity(m[..n], sim)(t) == PairSimilarity(m, sim)(t) {}
      assert Reaching(m, sim, threshold)
          == Reaching(m[..n], sim, threshold) + if PairSimilarity(m, sim)(n) >= threshold then {n} else {};
    }
  }
}
