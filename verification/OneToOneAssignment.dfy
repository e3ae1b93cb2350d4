/** One-to-one assignment of targets (gold items) to elements (selected candidates).

    A matching is listed by target: `m[t]` is the element given to target `t`, or `None`. The
    pairs `(t, m[t].value)` read in index order are the sorted pair list of the program. `sim` is the
    similarity table, read as `sim(target, element)`; an element is a position in the selection.
*/
module OneToOneAssignment {
  import opened Wrappers
  import Lists

  type Table = (nat, nat) -> real
  type Matching = seq<Option<nat>>

  /** What the dynamic program compares: qualifying pairs first, then total similarity. */
  datatype Score = Score(hits: int, total: real)

  predicate Better(a: Score, b: Score) {
    a.hits > b.hits || (a.hits == b.hits && a.total > b.total)
  }

  function Plus(a: Score, b: Score): Score {
    Score(a.hits + b.hits, a.total + b.total)
  }

  /** Without a threshold no pair qualifies and the order is by total similarity alone. */
  function PairScore(sim: Table, threshold: Option<real>, t: nat, e: nat): Score {
    Score(if threshold.Some? && sim(t, e) >= threshold.value then 1 else 0, sim(t, e))
  }

  function ScoreOf(m: Matching, sim: Table, threshold: Option<real>): Score {
    if m == [] then Score(0, 0.0)
    else
      var t := |m| - 1;
      var rest := ScoreOf(m[..t], sim, threshold);
      if m[t].None? then rest else Plus(rest, PairScore(sim, threshold, t, m[t].value))
  }

  function Mask(m: Matching): set<nat> {
    set t: nat | t < |m| && m[t].Some?
  }

  lemma MaskAfterAssigning(m: Matching, t: nat, e: nat)
    requires t < |m|
    ensures Mask(m[t := Some(e)]) == Mask(m) + {t}
    ensures m[t].None? ==> |Mask(m[t := Some(e)])| == |Mask(m)| + 1
  {
    assert Mask(m[t := Some(e)]) == Mask(m) + {t};
  }

  predicate IsMatching(m: Matching, targets: nat, elements: nat) {
    && |m| == targets
    && (forall t :: 0 <= t < |m| && m[t].Some? ==> m[t].value < elements)
    && (forall t, u :: 0 <= t < u < |m| && m[t].Some? && m[u].Some? ==> m[t].value != m[u].value)
  }

  function NoPairs(targets: nat): (m: Matching)
    ensures IsMatching(m, targets, 0) && Mask(m) == {}
  {
    seq(targets, _ => None)
  }

  function Min(a: nat, b: nat): nat { if a < b then a else b }

  /** No partial matching has more pairs, and none with as many pairs scores better. */
  ghost predicate Optimal(m: Matching, sim: Table, targets: nat, elements: nat, threshold: Option<real>) {
    && IsMatching(m, targets, elements)
    && |Mask(m)| == Min(targets, elements)
    && forall other :: IsMatching(other, targets, elements) && |Mask(other)| == |Mask(m)| ==>
         !Better(ScoreOf(other, sim, threshold), ScoreOf(m, sim, threshold))
  }

  // ---------------------------------------------------------------- scores

  lemma {:induction false} ScoreAfterAssigning(m: Matching, sim: Table, threshold: Option<real>, t: nat, e: nat)
    requires t < |m| && m[t].None?
    ensures ScoreOf(m[t := Some(e)], sim, threshold)
         == Plus(ScoreOf(m, sim, threshold), PairScore(sim, threshold, t, e))
  {
    var last := |m| - 1;
    if t == last {
      assert m[t := Some(e)][..last] == m[..last];
    } else {
      assert m[t := Some(e)][..last] == m[..last][t := Some(e)];
      ScoreAfterAssigning(m[..last], sim, threshold, t, e);
    }
  }

  lemma {:induction false} EmptyScore(m: Matching, sim: Table, threshold: Option<real>)
    requires forall t :: 0 <= t < |m| ==> m[t] == None
    ensures ScoreOf(m, sim, threshold) == Score(0, 0.0)
  {
    if m != [] { EmptyScore(m[..|m| - 1], sim, threshold); }
  }

  // ---------------------------------------------------------------- the dynamic program

  datatype State = State(score: Score, m: Matching)

  ghost predicate Entry(mask: set<nat>, state: State, sim: Table, threshold: Option<real>, targets: nat, e: nat) {
    IsMatching(state.m, targets, e) && Mask(state.m) == mask && state.score == ScoreOf(state.m, sim, threshold)
  }

  /** Every state records a matching of the first `e` elements whose matched targets are its key. */
  ghost predicate Sound(states: map<set<nat>, State>, sim: Table, threshold: Option<real>, targets: nat, e: nat) {
    forall mask :: mask in states ==> Entry(mask, states[mask], sim, threshold, targets, e)
  }

  ghost predicate AtLeast(states: map<set<nat>, State>, mask: set<nat>, score: Score) {
    mask in states && !Better(score, states[mask].score)
  }

  /** Every matching of the first `e` elements is matched or beaten by the state with its targets. */
  ghost predicate Complete(states: map<set<nat>, State>, sim: Table, threshold: Option<real>, targets: nat, e: nat) {
    forall m {:trigger IsMatching(m, targets, e)} :: IsMatching(m, targets, e) ==>
      AtLeast(states, Mask(m), ScoreOf(m, sim, threshold))
  }

  ghost predicate Improves(updated: map<set<nat>, State>, states: map<set<nat>, State>) {
    forall mask, score :: AtLeast(states, mask, score) ==> AtLeast(updated, mask, score)
  }

  /** The states reachable from `mask` by giving element `e` to a target below `bound` are covered. */
  ghost predicate Relaxed(updated: map<set<nat>, State>, states: map<set<nat>, State>, mask: set<nat>,
                          sim: Table, threshold: Option<real>, bound: nat, e: nat)
    requires mask in states
  {
    forall t: nat {:trigger mask + {t}} :: t < bound && t !in mask ==>
      AtLeast(updated, mask + {t}, Plus(states[mask].score, PairScore(sim, threshold, t, e)))
  }

  lemma ExtendedEntry(mask: set<nat>, state: State, sim: Table, threshold: Option<real>, targets: nat, t: nat, e: nat)
    requires Entry(mask, state, sim, threshold, targets, e) && t < targets && t !in mask
    ensures Entry(mask + {t}, State(Plus(state.score, PairScore(sim, threshold, t, e)), state.m[t := Some(e)]),
                  sim, threshold, targets, e + 1)
  {
    MaskAfterAssigning(state.m, t, e);
    ScoreAfterAssigning(state.m, sim, threshold, t, e);
  }

  /** The body of the loop over `states`: try every free target for element `e`. */
  method Relax(states: map<set<nat>, State>, before: map<set<nat>, State>, mask: set<nat>,
               sim: Table, threshold: Option<real>, targets: nat, e: nat)
    returns (updated: map<set<nat>, State>)
    requires mask in states
    requires Sound(states, sim, threshold, targets, e)
    requires Sound(before, sim, threshold, targets, e + 1)
    ensures Sound(updated, sim, threshold, targets, e + 1)
    ensures Improves(updated, before)
    ensures Relaxed(updated, states, mask, sim, threshold, targets, e)
  {
    updated := before;
    var state := states[mask];
    assert Entry(mask, state, sim, threshold, targets, e);
    for t := 0 to targets
      invariant Sound(updated, sim, threshold, targets, e + 1)
      invariant Improves(updated, before)
      invariant Relaxed(updated, states, mask, sim, threshold, t, e)
    {
      if t !in mask {
        var candidate := State(Plus(state.score, PairScore(sim, threshold, t, e)), state.m[t := Some(e)]);
        ExtendedEntry(mask, state, sim, threshold, targets, t, e);
        if mask + {t} !in updated || Better(candidate.score, updated[mask + {t}].score) {
          updated := updated[mask + {t} := candidate];
        }
      }
    }
  }

  /** A matching that uses element `e` is one that does not, plus one pair. */
  lemma WithoutLastElement(m: Matching, sim: Table, threshold: Option<real>, targets: nat, e: nat, t: nat)
    requires IsMatching(m, targets, e + 1) && t < targets && m[t] == Some(e)
    ensures IsMatching(m[t := None], targets, e) && t !in Mask(m[t := None])
    ensures Mask(m) == Mask(m[t := None]) + {t}
    ensures ScoreOf(m, sim, threshold)
         == Plus(ScoreOf(m[t := None], sim, threshold), PairScore(sim, threshold, t, e))
  {
    ScoreAfterAssigning(m[t := None], sim, threshold, t, e);
    assert m[t := None][t := Some(e)] == m;
  }

  lemma StepIsComplete(updated: map<set<nat>, State>, states: map<set<nat>, State>,
                       sim: Table, threshold: Option<real>, targets: nat, e: nat)
    requires Complete(states, sim, threshold, targets, e)
    requires Improves(updated, states)
    requires forall mask :: mask in states ==> Relaxed(updated, states, mask, sim, threshold, targets, e)
    ensures Complete(updated, sim, threshold, targets, e + 1)
  {
    forall m | IsMatching(m, targets, e + 1)
      ensures AtLeast(updated, Mask(m), ScoreOf(m, sim, threshold))
    {
      if t: nat :| t < targets && m[t] == Some(e) {
        WithoutLastElement(m, sim, threshold, targets, e, t);
        var mask := Mask(m[t := None]);
        assert AtLeast(states, mask, ScoreOf(m[t := None], sim, threshold));
        assert AtLeast(updated, mask + {t}, Plus(states[mask].score, PairScore(sim, threshold, t, e)));
      } else {
        assert IsMatching(m, targets, e);
        assert AtLeast(states, Mask(m), ScoreOf(m, sim, threshold));
        assert AtLeast(updated, Mask(m), states[Mask(m)].score);
      }
    }
  }

  lemma InitialStates(sim: Table, threshold: Option<real>, targets: nat)
    ensures var states := map[{} := State(Score(0, 0.0), NoPairs(targets))];
      Sound(states, sim, threshold, targets, 0) && Complete(states, sim, threshold, targets, 0)
  {
    var none := NoPairs(targets);
    EmptyScore(none, sim, threshold);
    forall m: Matching | IsMatching(m, targets, 0) ensures m == none {
      assert forall t :: 0 <= t < |m| ==> m[t] == none[t];
    }
  }

  /** `max(states.values(), key=(pairs, hits, total))`. */
  method BestState(states: map<set<nat>, State>, ghost targets: nat, ghost elements: nat,
                   ghost sim: Table, ghost threshold: Option<real>)
    returns (best: State)
    requires states.Keys != {}
    requires Sound(states, sim, threshold, targets, elements)
    ensures exists mask :: mask in states && states[mask] == best
    ensures forall mask :: mask in states ==>
      |mask| < |Mask(best.m)| || (|mask| == |Mask(best.m)| && !Better(states[mask].score, best.score))
  {
    var bestMask := Pick(states.Keys);
    var todo := states.Keys;
    while todo != {}
      invariant bestMask in states && todo <= states.Keys
      invariant forall mask :: mask in states && mask !in todo ==>
        |mask| < |bestMask| || (|mask| == |bestMask| && !Better(states[mask].score, states[bestMask].score))
      decreases todo
    {
      var mask := Pick(todo);
      if |mask| > |bestMask| || (|mask| == |bestMask| && Better(states[mask].score, states[bestMask].score)) {
        bestMask := mask;
      }
      todo := todo - {mask};
    }
    best := states[bestMask];
  }

  method OneToOnePairs(sim: Table, targets: nat, elements: nat, threshold: Option<real>)
    returns (m: Matching)
    ensures Optimal(m, sim, targets, elements, threshold)
  {
    InitialStates(sim, threshold, targets);
    var states: map<set<nat>, State> := map[{} := State(Score(0, 0.0), NoPairs(targets))];
    for e := 0 to elements
      invariant Sound(states, sim, threshold, targets, e)
      invariant Complete(states, sim, threshold, targets, e)
    {
      var updated := states;
      var todo := states.Keys;
      while todo != {}
        invariant todo <= states.Keys
        invariant Sound(updated, sim, threshold, targets, e + 1)
        invariant Improves(updated, states)
        invariant forall mask :: mask in states && mask !in todo ==>
          Relaxed(updated, states, mask, sim, threshold, targets, e)
        decreases todo
      {
        var mask := Pick(todo);
        updated := Relax(states, updated, mask, sim, threshold, targets, e);
        todo := todo - {mask};
      }
      StepIsComplete(updated, states, sim, threshold, targets, e);
      states := updated;
    }
    assert IsMatching(NoPairs(targets), targets, elements);
    assert AtLeast(states, Mask(NoPairs(targets)), ScoreOf(NoPairs(targets), sim, threshold));
    var best := BestState(states, targets, elements, sim, threshold);
    m := best.m;
    BestStateIsOptimal(states, best, sim, threshold, targets, elements);
  }

  lemma BestStateIsOptimal(states: map<set<nat>, State>, best: State,
                           sim: Table, threshold: Option<real>, targets: nat, elements: nat)
    requires Sound(states, sim, threshold, targets, elements)
    requires Complete(states, sim, threshold, targets, elements)
    requires exists mask :: mask in states && states[mask] == best
    requires forall mask :: mask in states ==>
      |mask| < |Mask(best.m)| || (|mask| == |Mask(best.m)| && !Better(states[mask].score, best.score))
    ensures Optimal(best.m, sim, targets, elements, threshold)
  {
    SomeLargestMatching(targets, elements, NoPairs(targets), sim, threshold);
    var largest :| IsMatching(largest, targets, elements) && |Mask(largest)| == Min(targets, elements);
    assert AtLeast(states, Mask(largest), ScoreOf(largest, sim, threshold));
    MatchingSize(best.m, targets, elements);
    forall other | IsMatching(other, targets, elements) && |Mask(other)| == |Mask(best.m)|
      ensures !Better(ScoreOf(other, sim, threshold), ScoreOf(best.m, sim, threshold))
    {
      assert AtLeast(states, Mask(other), ScoreOf(other, sim, threshold));
    }
  }

  // ---------------------------------------------------------------- cardinality

  function Owners(m: Matching, n: nat): set<nat> {
    set t: nat | t < |m| && m[t].Some? && m[t].value < n
  }

  predicate Owned(m: Matching, e: nat) { exists t :: 0 <= t < |m| && m[t] == Some(e) }

  lemma OneOwner(m: Matching, targets: nat, elements: nat, t: nat, u: nat)
    requires IsMatching(m, targets, elements)
    requires t < |m| && u < |m| && m[t].Some? && m[t] == m[u]
    ensures t == u
  {
  }

  lemma OwnersStep(m: Matching, targets: nat, elements: nat, e: nat)
    requires IsMatching(m, targets, elements)
    ensures |Owners(m, e + 1)| == |Owners(m, e)| + if Owned(m, e) then 1 else 0
  {
    if Owned(m, e) {
      var t: nat :| t < |m| && m[t] == Some(e);
      AddedOwner(m, targets, elements, e, t);
    } else {
      assert Owners(m, e + 1) == Owners(m, e);
    }
  }

  lemma AddedOwner(m: Matching, targets: nat, elements: nat, e: nat, t: nat)
    requires IsMatching(m, targets, elements) && t < |m| && m[t] == Some(e)
    ensures Owners(m, e + 1) == Owners(m, e) + {t} && t !in Owners(m, e)
  {
    forall u | u in Owners(m, e + 1) && u != t ensures u in Owners(m, e) {
      if m[u] == m[t] { OneOwner(m, targets, elements, t, u); }
    }
  }

  /** At most `n` targets own an element below `n`; when fewer do, some element below `n` is free. */
  lemma {:induction false} OwnersOrFree(m: Matching, targets: nat, elements: nat, n: nat)
    requires IsMatching(m, targets, elements)
    ensures |Owners(m, n)| <= n
    ensures |Owners(m, n)| < n ==> exists e: nat :: e < n && !Owned(m, e)
  {
    if n == 0 {
      assert Owners(m, 0) == {};
    } else {
      OwnersOrFree(m, targets, elements, n - 1);
      OwnersStep(m, targets, elements, n - 1);
    }
  }

  lemma MatchingSize(m: Matching, targets: nat, elements: nat)
    requires IsMatching(m, targets, elements)
    ensures |Mask(m)| <= Min(targets, elements)
  {
    OwnersOrFree(m, targets, elements, elements);
    assert Owners(m, elements) == Mask(m);
    Lists.BelowSize(targets);
    Lists.SubsetSize(Mask(m), Lists.Below(targets));
  }

  lemma FreePair(m: Matching, targets: nat, elements: nat)
    requires IsMatching(m, targets, elements) && |Mask(m)| < Min(targets, elements)
    ensures exists t: nat :: t < targets && m[t].None?
    ensures exists e: nat :: e < elements && !Owned(m, e)
  {
    OwnersOrFree(m, targets, elements, elements);
    assert Owners(m, elements) == Mask(m);
    Lists.BelowSize(targets);
    Lists.SubsetSize(Mask(m), Lists.Below(targets));
    if Lists.Below(targets) <= Mask(m) { Lists.SubsetSize(Lists.Below(targets), Mask(m)); }
    var t :| t in Lists.Below(targets) && t !in Mask(m);
    assert m[t].None?;
  }

  /** Any matching grows to a largest one without losing a qualifying pair. */
  lemma {:induction false} SomeLargestMatching(targets: nat, elements: nat, m: Matching,
                                               sim: Table, threshold: Option<real>)
    requires IsMatching(m, targets, elements)
    ensures exists largest ::
      && IsMatching(largest, targets, elements) && |Mask(largest)| == Min(targets, elements)
      && ScoreOf(largest, sim, threshold).hits >= ScoreOf(m, sim, threshold).hits
    decreases Min(targets, elements) - |Mask(m)|
  {
    MatchingSize(m, targets, elements);
    if |Mask(m)| < Min(targets, elements) {
      FreePair(m, targets, elements);
      var t: nat :| t < targets && m[t].None?;
      var e: nat :| e < elements && !Owned(m, e);
      MaskAfterAssigning(m, t, e);
      ScoreAfterAssigning(m, sim, threshold, t, e);
      SomeLargestMatching(targets, elements, m[t := Some(e)], sim, threshold);
    }
  }
}
