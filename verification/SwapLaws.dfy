/** The start set, the gain of a swap and the best swap, written out. */
module SwapLaws {
  import opened Wrappers
  import opened Lists
  import opened SwapRescue

  /** What a candidate scores given the others: redundancy lowers it, temporal and session novelty raise it. */
  ghost predicate IsScore(ex: Example, config: Config, id: Id, others: seq<Id>, score: real) {
    score == ex.base(id) - config.redundancyWeight * ex.redundancy(id, others)
             + config.temporalWeight * ex.temporal(id, others) + config.sessionWeight * ex.session(id, others)
  }

  /** Both ids of a swap are scored against the selection without the outgoing one, in its order. */
  lemma DeltaMeans(ex: Example, config: Config, selected: seq<Id>, incoming: Id, outgoing: Id)
    returns (rest: seq<Id>, gained: real, lost: real)
    ensures IsPart(selected, Elements(selected) - {outgoing}, rest)
    ensures IsScore(ex, config, incoming, rest, gained) && IsScore(ex, config, outgoing, rest, lost)
    ensures Delta(ex, config, selected, incoming, outgoing) == gained - lost
  {
    rest := Filter(selected, Elements(selected) - {outgoing});
    FilterIsPart(selected, Elements(selected) - {outgoing});
    gained, lost := ConditionalScore(ex, incoming, rest, config), ConditionalScore(ex, outgoing, rest, config);
  }

  /** A more redundant candidate scores lower, all else equal. */
  lemma RedundancyLowers(ex: Example, config: Config, a: Id, b: Id, others: seq<Id>)
    requires config.redundancyWeight > 0.0 && ex.base(a) == ex.base(b)
    requires ex.temporal(a, others) == ex.temporal(b, others) && ex.session(a, others) == ex.session(b, others)
    requires ex.redundancy(a, others) > ex.redundancy(b, others)
    ensures ConditionalScore(ex, a, others, config) < ConditionalScore(ex, b, others, config)
  {
    MoreWeighs(config.redundancyWeight, ex.redundancy(a, others), ex.redundancy(b, others));
  }

  lemma MoreWeighs(weight: real, a: real, b: real)
    requires weight > 0.0 && a > b
    ensures weight * a > weight * b
  {
    assert weight * (a - b) > 0.0;
  }

  /** The best swap gains more than the margin and as much as any; of equal ones it has the greatest incoming id and
      then the greatest outgoing one. */
  lemma BestSwapMeans(ex: Example, config: Config, selected: seq<Id>, swap: Swap)
    ensures IsBestSwap(ex, config, selected, swap) <==> (
      && swap.incoming in ex.candidates && swap.incoming !in selected && swap.outgoing in selected
      && swap.delta == Delta(ex, config, selected, swap.incoming, swap.outgoing) && swap.delta > config.margin
      && forall x, y :: x in ex.candidates && x !in selected && y in selected ==>
           var gain := Delta(ex, config, selected, x, y);
           && gain <= swap.delta
           && (gain == swap.delta ==> x <= swap.incoming)
           && (gain == swap.delta && x == swap.incoming ==> y <= swap.outgoing))
  {
    forall x: Id, y: Id
      ensures !Greater(Swap(Delta(ex, config, selected, x, y), x, y), swap) <==> (
        var gain := Delta(ex, config, selected, x, y);
        && gain <= swap.delta
        && (gain == swap.delta ==> x <= swap.incoming)
        && (gain == swap.delta && x == swap.incoming ==> y <= swap.outgoing))
    {
    }
  }

  /** The baseline picks: the first `target` of the baseline's candidates. */
  ghost predicate ArePicks(ex: Example, picks: seq<Id>) {
    exists all :: IsPart(ex.baseline, Elements(ex.candidates), all) && picks <= all
      && |picks| == if ex.target < |all| then ex.target else |all|
  }

  /** The start set: the picks, and then in falling order of base score, smaller ids first, the best of the others. */
  lemma StartMeans(start: seq<Id>, ex: Example) returns (picks: seq<Id>, fill: seq<Id>)
    requires IsStart(start, ex)
    ensures start == picks + fill && ArePicks(ex, picks)
    ensures Distinct(start) && |start| == if ex.target < |ex.candidates| then ex.target else |ex.candidates|
    ensures forall i, j :: 0 <= i < j < |fill| ==>
      ex.base(fill[i]) > ex.base(fill[j]) || (ex.base(fill[i]) == ex.base(fill[j]) && fill[i] < fill[j])
    ensures forall x, y :: x in fill && y in ex.candidates && y !in start ==>
      ex.base(x) > ex.base(y) || (ex.base(x) == ex.base(y) && x < y)
  {
    picks := PicksOf(ex);
    fill := start[|picks|..];
    FilterIsPart(ex.baseline, Elements(ex.candidates));
    assert IsPart(ex.baseline, Elements(ex.candidates), Filter(ex.baseline, Elements(ex.candidates)));
  }

  /** As many rounds as allowed, and none for a negative number. */
  lemma LimitMeans(config: Config)
    ensures config.maxReplacements >= 0 ==> Limit(config) == config.maxReplacements
    ensures config.maxReplacements < 0 ==> Limit(config) == 0
  {
  }

  /** A margin taken `n` times is `n` times the margin. */
  lemma {:induction false} TimesMeans(v: real, n: nat)
    ensures Times(v, n) == n as real * v
  {
    if n > 0 {
      TimesMeans(v, n - 1);
      assert n as real * v == (n - 1) as real * v + v;
    }
  }
}
