/** What the planner's confidences and loads are, written out. */
module PlannerLaws {
  import opened CapacityPlanner
  import Lists

  predicate IsOpen(free: seq<nat>, h: nat) {
    h < |free| && free[h] > 0
  }

  /** No open handle but those left out is more similar to the item. */
  ghost predicate IsTop(sim: Similarity, item: nat, free: seq<nat>, g: nat, except: int) {
    IsOpen(free, g) && g != except && forall h: nat :: IsOpen(free, h) && h != except ==> sim(item, h) <= sim(item, g)
  }

  lemma ChoiceIsTop(sim: Similarity, item: nat, free: seq<nat>, except: int)
    ensures var best := Choice(sim, item, free, |free|, except);
      if best < 0 then forall h: nat :: IsOpen(free, h) ==> h == except
      else IsTop(sim, item, free, best, except)
  {
  }

  /** An item's best score is that of its most similar open handle. */
  lemma BestScoreMeans(sim: Similarity, item: nat, free: seq<nat>)
    ensures (forall h: nat :: !IsOpen(free, h)) ==> BestScore(sim, item, free) == Lowest
    ensures forall g: nat :: IsTop(sim, item, free, g, -1) ==> BestScore(sim, item, free) == Finite(sim(item, g))
  {
    ChoiceIsTop(sim, item, free, -1);
  }

  /** An item's margin is its best handle's lead over the best of the others, infinite with fewer than two open. */
  lemma MarginMeans(sim: Similarity, item: nat, free: seq<nat>)
    ensures (forall g: nat, h: nat :: IsOpen(free, g) && IsOpen(free, h) ==> g == h) <==>
      Margin(sim, item, free) == Highest
    ensures forall g: nat, h: nat :: IsTop(sim, item, free, g, -1) && IsTop(sim, item, free, h, g) ==>
      Margin(sim, item, free) == Finite(sim(item, g) - sim(item, h)) && sim(item, g) - sim(item, h) >= 0.0
  {
    var best := Choice(sim, item, free, |free|, -1);
    ChoiceIsTop(sim, item, free, -1);
    ChoiceIsTop(sim, item, free, best);
    if best >= 0 {
      assert IsOpen(free, best);
      forall g: nat, h: nat | IsTop(sim, item, free, g, -1) && IsTop(sim, item, free, h, g)
        ensures Margin(sim, item, free) == Finite(sim(item, g) - sim(item, h)) && sim(item, g) - sim(item, h) >= 0.0
      {
        SameLead(sim, item, free, g, h);
      }
    }
  }

  /** Whichever of equally similar handles counts as best, the lead is the same. */
  lemma SameLead(sim: Similarity, item: nat, free: seq<nat>, g: nat, h: nat)
    requires IsTop(sim, item, free, g, -1) && IsTop(sim, item, free, h, g)
    ensures Margin(sim, item, free) == Finite(sim(item, g) - sim(item, h)) && sim(item, h) <= sim(item, g)
  {
    var best := Choice(sim, item, free, |free|, -1);
    ChoiceIsTop(sim, item, free, -1);
    ChoiceIsTop(sim, item, free, best);
    var second := Choice(sim, item, free, |free|, best);
    assert IsTop(sim, item, free, best, -1) && sim(item, best) == sim(item, g);
    assert second >= 0;
    assert sim(item, second) == sim(item, h);
  }

  /** A greater margin comes first, an infinite one before all; then a greater best score; then the later item. */
  lemma RankingMeans(rankings: seq<Confidence>, sim: Similarity, free: seq<nat>, n: nat, a: nat, b: nat)
    requires IsRanking(rankings, sim, free, n) && a < b < n
    ensures var x, y := rankings[a].item, rankings[b].item;
      && x < n && y < n
      && !(Margin(sim, x, free).Finite? && Margin(sim, y, free).Highest?)
      && (Margin(sim, x, free).Finite? && Margin(sim, y, free).Finite? ==>
            Margin(sim, x, free).value >= Margin(sim, y, free).value)
      && (Margin(sim, x, free) == Margin(sim, y, free) ==>
            && !(BestScore(sim, x, free).Lowest? && BestScore(sim, y, free).Finite?)
            && (BestScore(sim, x, free).Finite? && BestScore(sim, y, free).Finite? ==>
                  BestScore(sim, x, free).value >= BestScore(sim, y, free).value)
            && (BestScore(sim, x, free) == BestScore(sim, y, free) ==> x > y))
  {
    assert rankings[a] in rankings && rankings[b] in rankings;
    assert More(rankings[a], rankings[b]);
  }

  /** Every item is ranked, once. */
  lemma EveryItemIsRanked(rankings: seq<Confidence>, sim: Similarity, free: seq<nat>, n: nat, i: nat) returns (a: nat)
    requires IsRanking(rankings, sim, free, n) && i < n
    ensures a < n && rankings[a].item == i
  {
    assert ConfidenceOf(sim, free, i) in rankings;
    a :| a < n && rankings[a] == ConfidenceOf(sim, free, i);
  }

  /** Which assignments put an item in handle `h`. */
  function IsInto(h: nat): Assignment -> bool {
    (a: Assignment) => a.handle == h
  }

  lemma {:induction false} LoadCounts(plan: seq<Assignment>, h: nat)
    ensures Load(plan, h) == |Lists.Positions(plan, IsInto(h))|
  {
    if plan == [] {
      assert Lists.Positions(plan, IsInto(h)) == {};
    } else {
      LoadCounts(plan[..|plan| - 1], h);
      Lists.PositionsStep(plan, IsInto(h));
    }
  }

  /** A more similar handle, or a later one as similar, was full before the item's turn. */
  lemma BetterHandlesWereFull(plan: seq<Assignment>, rankings: seq<Confidence>, sim: Similarity, free: seq<nat>, p: nat, g: nat)
    requires IsStablePlan(plan, rankings, sim, free) && p < |plan| && g < |free|
    requires sim(plan[p].item, g) > sim(plan[p].item, plan[p].handle)
          || (sim(plan[p].item, g) == sim(plan[p].item, plan[p].handle) && g > plan[p].handle)
    ensures |Lists.Positions(plan[..p], IsInto(g))| == free[g]
  {
    LoadCounts(plan[..p], g);
    assert Prefers(sim, plan[p].item, g, plan[p].handle);
  }
}
