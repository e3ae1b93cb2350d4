/** `matched_recall`: how many targets of a one-to-one assignment reach the threshold, as candidates are added. */
module SelectionMetrics {
  import opened Wrappers
  import opened OneToOneAssignment

  /** Preferring cardinality costs no qualifying pair: no partial matching of any size has more. */
  lemma HitsAreMaximal(m: Matching, other: Matching, sim: Table, targets: nat, elements: nat, threshold: Option<real>)
    requires Optimal(m, sim, targets, elements, threshold)
    requires IsMatching(other, targets, elements)
    ensures ScoreOf(other, sim, threshold).hits <= ScoreOf(m, sim, threshold).hits
  {
    SomeLargestMatching(targets, elements, other, sim, threshold);
  }

  /** The number of targets `matched_recall` counts: an unmatched target scores 0.0. */
  function Recalled(m: Matching, sim: Table, threshold: real): nat {
    if m == [] then 0
    else
      var t := |m| - 1;
      Recalled(m[..t], sim, threshold)
        + if (if m[t].Some? then sim(t, m[t].value) else 0.0) >= threshold then 1 else 0
  }

  lemma {:induction false} RecalledIsHits(m: Matching, sim: Table, threshold: real)
    requires threshold > 0.0
    ensures Recalled(m, sim, threshold) == ScoreOf(m, sim, Some(threshold)).hits
  {
    if m != [] { RecalledIsHits(m[..|m| - 1], sim, threshold); }
  }

  /** `place` puts each element of the smaller selection at its own position of the larger one. */
  ghost predicate Embeds(place: seq<nat>, targets: nat, sim: Table, larger: Table, elements: nat) {
    && (forall e :: 0 <= e < |place| ==> place[e] < elements)
    && (forall d, e :: 0 <= d < e < |place| ==> place[d] != place[e])
    && (forall t: nat, e :: t < targets && 0 <= e < |place| ==> larger(t, place[e]) == sim(t, e))
  }

  function Moved(m: Matching, place: seq<nat>): Matching
    requires forall t :: 0 <= t < |m| && m[t].Some? ==> m[t].value < |place|
  {
    seq(|m|, t requires 0 <= t < |m| => if m[t].Some? then Some(place[m[t].value]) else None)
  }

  lemma {:induction false} MovedScore(m: Matching, place: seq<nat>, sim: Table, larger: Table,
                                      targets: nat, elements: nat, threshold: Option<real>)
    requires |m| <= targets && Embeds(place, targets, sim, larger, elements)
    requires forall t :: 0 <= t < |m| && m[t].Some? ==> m[t].value < |place|
    ensures ScoreOf(Moved(m, place), larger, threshold) == ScoreOf(m, sim, threshold)
  {
    if m != [] {
      var t := |m| - 1;
      assert Moved(m, place)[..t] == Moved(m[..t], place);
      MovedScore(m[..t], place, sim, larger, targets, elements, threshold);
    }
  }

  /** For a positive threshold, adding candidates anywhere in the selection never lowers matched recall. */
  lemma RecallNeverFalls(m: Matching, sim: Table, place: seq<nat>, m': Matching, larger: Table,
                         targets: nat, elements: nat, threshold: real)
    requires threshold > 0.0
    requires Embeds(place, targets, sim, larger, elements)
    requires Optimal(m, sim, targets, |place|, Some(threshold))
    requires Optimal(m', larger, targets, elements, Some(threshold))
    ensures Recalled(m, sim, threshold) <= Recalled(m', larger, threshold)
  {
    var moved := Moved(m, place);
    MovedScore(m, place, sim, larger, targets, elements, Some(threshold));
    HitsAreMaximal(m', moved, larger, targets, elements, Some(threshold));
    RecalledIsHits(m, sim, threshold);
    RecalledIsHits(m', larger, threshold);
  }

  /** Similarities are cosines. */
  ghost predicate AreCosines(sim: Table) {
    forall t: nat, e: nat :: -1.0 <= sim(t, e) <= 1.0
  }

  /** Recall falls from `m` to `m'` when the candidates of `sim` are placed among those of `larger`. */
  ghost predicate Falls(threshold: real, m: Matching, sim: Table, place: seq<nat>, m': Matching, larger: Table,
                        targets: nat, elements: nat) {
    && AreCosines(sim) && AreCosines(larger) && Embeds(place, targets, sim, larger, elements)
    && Optimal(m, sim, targets, |place|, Some(threshold)) && Optimal(m', larger, targets, elements, Some(threshold))
    && Recalled(m, sim, threshold) > Recalled(m', larger, threshold)
  }

  /** At a threshold no cosine is below, every target counts as recalled. */
  lemma {:induction false} EverythingIsRecalled(m: Matching, sim: Table, threshold: real)
    requires AreCosines(sim) && threshold <= -1.0
    ensures Recalled(m, sim, threshold) == |m|
  {
    if m != [] { EverythingIsRecalled(m[..|m| - 1], sim, threshold); }
  }

  lemma NoCandidates(sim: Table, threshold: real)
    requires threshold <= 0.0
    ensures Optimal([None], sim, 1, 0, Some(threshold)) && Recalled([None], sim, threshold) == 1
  {
    var m: Matching := [None];
    assert Mask(m) == {} && m[..0] == [];
    forall other: Matching | IsMatching(other, 1, 0) ensures other == m {
      assert other[0].None?;
    }
  }

  lemma OneCandidate(sim: Table, threshold: real)
    requires sim(0, 0) < threshold
    ensures Optimal([Some(0)], sim, 1, 1, Some(threshold)) && Recalled([Some(0)], sim, threshold) == 0
  {
    var m: Matching := [Some(0)];
    assert Mask(m) == {0} && m[..0] == [];
    forall other: Matching | IsMatching(other, 1, 1) && |Mask(other)| == 1 ensures other == m {
      assert 0 in Mask(other) || Mask(other) == {};
    }
  }

  /** For a threshold of zero or less, a first candidate less similar than it loses the only target. */
  lemma RecallFallsWithoutPositiveThreshold(sim: Table, threshold: real)
    requires threshold <= 0.0 && AreCosines(sim) && sim(0, 0) < threshold
    ensures Falls(threshold, [None], sim, [], [Some(0)], sim, 1, 1)
  {
    NoCandidates(sim, threshold);
    OneCandidate(sim, threshold);
  }

  /** Adding candidates never lowers recall exactly when the threshold is positive, or so low that all is recalled. */
  lemma RecallNeverFallsExactly(threshold: real)
    ensures (forall m, sim, place, m', larger, targets, elements ::
        !Falls(threshold, m, sim, place, m', larger, targets, elements))
      <==> threshold > 0.0 || threshold <= -1.0
  {
    if threshold > 0.0 || threshold <= -1.0 {
      forall m, sim, place, m', larger, targets, elements
        ensures !Falls(threshold, m, sim, place, m', larger, targets, elements)
      {
        CannotFall(threshold, m, sim, place, m', larger, targets, elements);
      }
    } else {
      var sim: Table := (t, e) => -1.0;
      RecallFallsWithoutPositiveThreshold(sim, threshold);
    }
  }

  lemma CannotFall(threshold: real, m: Matching, sim: Table, place: seq<nat>, m': Matching, larger: Table,
                   targets: nat, elements: nat)
    requires threshold > 0.0 || threshold <= -1.0
    ensures !Falls(threshold, m, sim, place, m', larger, targets, elements)
  {
    if Falls(threshold, m, sim, place, m', larger, targets, elements) {
      if threshold > 0.0 {
        RecallNeverFalls(m, sim, place, m', larger, targets, elements, threshold);
      } else {
        EverythingIsRecalled(m, sim, threshold);
        EverythingIsRecalled(m', larger, threshold);
      }
    }
  }
}
