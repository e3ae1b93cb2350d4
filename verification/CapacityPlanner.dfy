/** Assign each unassigned item to its best handle with room, most confident items first.

    `sim(i, h)` is the similarity of item `i` to handle `h`, and `free[h]` the room handle `h` starts with.
*/
module CapacityPlanner {
  type Similarity = (nat, nat) -> real
  datatype Assignment = Assignment(item: nat, handle: nat)

  /** Minus infinity, a score, or plus infinity. */
  datatype Extended = Lowest | Finite(value: real) | Highest

  predicate Above(a: Extended, b: Extended) {
    match (a, b)
    case (Finite(x), Finite(y)) => x > y
    case (Highest, _) => !b.Highest?
    case (_, Lowest) => !a.Lowest?
    case _ => false
  }

  // ---------------------------------------------------------------- confidence

  /** The order of an item's scored handles: higher similarity first, then the later handle. */
  predicate Prefers(sim: Similarity, item: nat, g: nat, h: nat) {
    sim(item, g) > sim(item, h) || (sim(item, g) == sim(item, h) && g > h)
  }

  /** The item's first choice among the handles below `n` that have room, leaving out `except`. */
  function Choice(sim: Similarity, item: nat, free: seq<nat>, n: nat, except: int): (best: int)
    requires n <= |free|
    ensures -1 <= best < n
    ensures best >= 0 ==> free[best] > 0 && best != except
    ensures forall h :: 0 <= h < n && free[h] > 0 && h != except && h != best ==>
      best >= 0 && Prefers(sim, item, best, h)
  {
    if n == 0 then -1
    else
      var best := Choice(sim, item, free, n - 1, except);
      if free[n - 1] > 0 && n - 1 != except && (best < 0 || Prefers(sim, item, n - 1, best)) then n - 1 else best
  }

  function BestScore(sim: Similarity, item: nat, free: seq<nat>): Extended {
    var best := Choice(sim, item, free, |free|, -1);
    if best < 0 then Lowest else Finite(sim(item, best))
  }

  /** The gap between the two best scores; an item with fewer than two open handles has an infinite gap. */
  function Margin(sim: Similarity, item: nat, free: seq<nat>): Extended {
    var best := Choice(sim, item, free, |free|, -1);
    var second := Choice(sim, item, free, |free|, best);
    if best < 0 || second < 0 then Highest else Finite(sim(item, best) - sim(item, second))
  }

  datatype Confidence = Confidence(margin: Extended, best: Extended, item: nat)

  function ConfidenceOf(sim: Similarity, free: seq<nat>, item: nat): Confidence {
    Confidence(Margin(sim, item, free), BestScore(sim, item, free), item)
  }

  /** The order of `sorted(rankings, reverse=True)`: margin, then best score, then item index, all falling. */
  predicate More(a: Confidence, b: Confidence) {
    Above(a.margin, b.margin) || (a.margin == b.margin
      && (Above(a.best, b.best) || (a.best == b.best && a.item > b.item)))
  }

  lemma MoreIsTotalOrder(a: Confidence, b: Confidence, c: Confidence)
    ensures More(a, b) || a == b || More(b, a)
    ensures More(a, b) && More(b, c) ==> More(a, c)
  {
  }

  ghost predicate Falling(rankings: seq<Confidence>) {
    forall a, b :: 0 <= a < b < |rankings| ==> More(rankings[a], rankings[b])
  }

  /** The confidence of every item below `n`, most confident first. */
  ghost predicate IsRanking(rankings: seq<Confidence>, sim: Similarity, free: seq<nat>, n: nat) {
    && |rankings| == n && Falling(rankings)
    && (forall i: nat :: i < n ==> ConfidenceOf(sim, free, i) in rankings)
    && (forall c :: c in rankings ==> c.item < n && c == ConfidenceOf(sim, free, c.item))
  }

  lemma RankedItemsDiffer(rankings: seq<Confidence>, sim: Similarity, free: seq<nat>, n: nat, a: nat, b: nat)
    requires IsRanking(rankings, sim, free, n) && a < b < n
    ensures rankings[a].item < n && rankings[b].item < n && rankings[a].item != rankings[b].item
  {
    var x, y := rankings[a], rankings[b];
    assert x in rankings && y in rankings;
    assert More(x, y) && !More(x, x);
  }

  method Insert(rankings: seq<Confidence>, c: Confidence) returns (longer: seq<Confidence>)
    requires Falling(rankings) && c !in rankings
    ensures Falling(longer) && |longer| == |rankings| + 1
    ensures forall x :: x in longer <==> x in rankings || x == c
  {
    var k := 0;
    while k < |rankings| && More(rankings[k], c)
      invariant 0 <= k <= |rankings|
      invariant forall a :: 0 <= a < k ==> More(rankings[a], c)
    {
      k := k + 1;
    }
    longer := rankings[..k] + [c] + rankings[k..];
    assert rankings == rankings[..k] + rankings[k..];
    forall b | k <= b < |rankings| ensures More(c, rankings[b]) {
      MoreIsTotalOrder(c, rankings[k], rankings[b]);
    }
  }

  method Rank(sim: Similarity, free: seq<nat>, n: nat) returns (rankings: seq<Confidence>)
    ensures IsRanking(rankings, sim, free, n)
  {
    rankings := [];
    for i := 0 to n
      invariant IsRanking(rankings, sim, free, i)
    {
      rankings := Insert(rankings, ConfidenceOf(sim, free, i));
    }
  }

  // ---------------------------------------------------------------- the plan

  /** How many items the plan puts in handle `h`. */
  function Load(plan: seq<Assignment>, h: nat): nat {
    if plan == [] then 0
    else Load(plan[..|plan| - 1], h) + if plan[|plan| - 1].handle == h then 1 else 0
  }

  function Sum(s: seq<nat>): nat {
    if s == [] then 0 else Sum(s[..|s| - 1]) + s[|s| - 1]
  }

  /** A handle that an item prefers to its own was full before the item's turn, so of more confident items. */
  ghost predicate NoEnvy(plan: seq<Assignment>, sim: Similarity, free: seq<nat>) {
    forall p, g :: 0 <= p < |plan| && 0 <= g < |free| && Prefers(sim, plan[p].item, g, plan[p].handle) ==>
      Load(plan[..p], g) == free[g]
  }

  /** Everything the plan promises: who is placed, within which room, and that nobody has reason to object. */
  ghost predicate IsStablePlan(plan: seq<Assignment>, rankings: seq<Confidence>, sim: Similarity, free: seq<nat>) {
    && |plan| == (if |rankings| < Sum(free) then |rankings| else Sum(free))
    && (forall p :: 0 <= p < |plan| ==> plan[p].item == rankings[p].item && plan[p].handle < |free|)
    && (forall h :: 0 <= h < |free| ==> Load(plan, h) <= free[h])
    && (|plan| < |rankings| ==> forall h :: 0 <= h < |free| ==> Load(plan, h) == free[h])
    && NoEnvy(plan, sim, free)
  }

  /** The room left after the first `|plan|` assignments. */
  ghost predicate Accounts(plan: seq<Assignment>, left: seq<nat>, free: seq<nat>) {
    && |left| == |free|
    && (forall h :: 0 <= h < |free| ==> left[h] + Load(plan, h) == free[h])
    && Sum(left) + |plan| == Sum(free)
  }

  lemma {:induction false} SumUpdate(s: seq<nat>, k: nat, v: nat)
    requires k < |s|
    ensures Sum(s[k := v]) == Sum(s) - s[k] + v
  {
    var n := |s| - 1;
    if k == n {
      assert s[k := v][..n] == s[..n];
    } else {
      assert s[k := v][..n] == s[..n][k := v];
      SumUpdate(s[..n], k, v);
    }
  }

  lemma {:induction false} SumZero(s: seq<nat>)
    ensures Sum(s) == 0 <==> forall h :: 0 <= h < |s| ==> s[h] == 0
  {
    if s != [] {
      var n := |s| - 1;
      SumZero(s[..n]);
      assert forall h :: 0 <= h < n ==> s[..n][h] == s[h];
    }
  }

  lemma AccountsStep(plan: seq<Assignment>, left: seq<nat>, free: seq<nat>, a: Assignment)
    requires Accounts(plan, left, free) && a.handle < |free| && left[a.handle] > 0
    ensures Accounts(plan + [a], left[a.handle := left[a.handle] - 1], free)
  {
    assert (plan + [a])[..|plan|] == plan;
    SumUpdate(left, a.handle, left[a.handle] - 1);
  }

  lemma NoEnvyStep(plan: seq<Assignment>, left: seq<nat>, sim: Similarity, free: seq<nat>, a: Assignment)
    requires NoEnvy(plan, sim, free) && Accounts(plan, left, free)
    requires a.handle == Choice(sim, a.item, left, |left|, -1)
    ensures NoEnvy(plan + [a], sim, free)
  {
    var longer := plan + [a];
    forall p, g | 0 <= p < |longer| && 0 <= g < |free| && Prefers(sim, longer[p].item, g, longer[p].handle)
      ensures Load(longer[..p], g) == free[g]
    {
      assert longer[..p] == plan[..p];
      if p == |plan| {
        assert plan[..p] == plan;
        PrefersIsStrict(sim, a.item, g, a.handle);
      }
    }
  }

  lemma PrefersIsStrict(sim: Similarity, item: nat, g: nat, h: nat)
    ensures !(Prefers(sim, item, g, h) && Prefers(sim, item, h, g))
    ensures Prefers(sim, item, g, h) ==> g != h
  {
  }

  ghost predicate Placed(plan: seq<Assignment>, rankings: seq<Confidence>, handles: nat) {
    |plan| <= |rankings| && forall p :: 0 <= p < |plan| ==> plan[p].item == rankings[p].item && plan[p].handle < handles
  }

  /** The body of the assignment loop. */
  method Place(plan: seq<Assignment>, left: seq<nat>, item: nat, sim: Similarity, ghost free: seq<nat>)
    returns (longer: seq<Assignment>, less: seq<nat>)
    requires Accounts(plan, left, free) && NoEnvy(plan, sim, free)
    ensures Accounts(longer, less, free) && NoEnvy(longer, sim, free)
    ensures if Sum(left) == 0 then longer == plan && less == left
      else exists handle: nat :: handle < |free| && longer == plan + [Assignment(item, handle)]
  {
    var handle := Choice(sim, item, left, |left|, -1);
    SumZero(left);
    longer, less := plan, left;
    if handle >= 0 {
      AccountsStep(plan, left, free, Assignment(item, handle));
      NoEnvyStep(plan, left, sim, free, Assignment(item, handle));
      longer := plan + [Assignment(item, handle)];
      less := left[handle := left[handle] - 1];
    }
  }

  /** The invariant of the assignment loop after `k` rankings. */
  ghost predicate Progress(plan: seq<Assignment>, left: seq<nat>, rankings: seq<Confidence>, k: nat,
                           sim: Similarity, free: seq<nat>) {
    && |plan| <= k <= |rankings| && (|plan| == k || Sum(left) == 0)
    && Accounts(plan, left, free) && NoEnvy(plan, sim, free) && Placed(plan, rankings, |free|)
  }

  lemma ProgressEnds(plan: seq<Assignment>, left: seq<nat>, rankings: seq<Confidence>, sim: Similarity, free: seq<nat>)
    requires Progress(plan, left, rankings, |rankings|, sim, free)
    ensures IsStablePlan(plan, rankings, sim, free)
  {
    SumZero(left);
  }

  /** The assignment loop: one confident item after another. */
  method Assign(rankings: seq<Confidence>, sim: Similarity, free: seq<nat>) returns (plan: seq<Assignment>)
    ensures IsStablePlan(plan, rankings, sim, free)
  {
    plan := [];
    var left := free;
    for k := 0 to |rankings|
      invariant Progress(plan, left, rankings, k, sim, free)
    {
      plan, left := Place(plan, left, rankings[k].item, sim, free);
    }
    ProgressEnds(plan, left, rankings, sim, free);
  }

  /** `_capacity_constrained_assignments` for `n` items. */
  method Plan(sim: Similarity, free: seq<nat>, n: nat) returns (rankings: seq<Confidence>, plan: seq<Assignment>)
    ensures IsRanking(rankings, sim, free, n)
    ensures IsStablePlan(plan, rankings, sim, free)
  {
    rankings := Rank(sim, free, n);
    plan := Assign(rankings, sim, free);
  }

  // ---------------------------------------------------------------- what a stable plan amounts to

  lemma {:induction false} LoadGrows(plan: seq<Assignment>, p: nat, h: nat)
    requires p <= |plan|
    ensures Load(plan[..p], h) <= Load(plan, h)
  {
    if p < |plan| {
      LoadGrows(plan[..|plan| - 1], p, h);
      assert plan[..|plan| - 1][..p] == plan[..p];
    } else {
      assert plan[..p] == plan;
    }
  }

  /** Every handle an item strictly prefers to its own ends full. */
  lemma PreferredHandlesEndFull(plan: seq<Assignment>, rankings: seq<Confidence>, sim: Similarity, free: seq<nat>,
                                p: nat, g: nat)
    requires IsStablePlan(plan, rankings, sim, free) && p < |plan| && g < |free|
    requires Prefers(sim, plan[p].item, g, plan[p].handle)
    ensures Load(plan, g) == free[g]
  {
    LoadGrows(plan, p, g);
  }

  lemma RoomOnItsTurn(plan: seq<Assignment>, rankings: seq<Confidence>, sim: Similarity, free: seq<nat>, p: nat)
    requires IsStablePlan(plan, rankings, sim, free) && p < |plan|
    ensures Load(plan[..p], plan[p].handle) < free[plan[p].handle]
  {
    assert plan[..p + 1][..p] == plan[..p];
    LoadGrows(plan, p + 1, plan[p].handle);
  }

  /** The promises leave one plan: two stable plans for the same ranking agree on every assignment. */
  lemma {:induction false} StablePlanIsUnique(a: seq<Assignment>, b: seq<Assignment>, rankings: seq<Confidence>,
                                              sim: Similarity, free: seq<nat>, p: nat)
    requires IsStablePlan(a, rankings, sim, free) && IsStablePlan(b, rankings, sim, free)
    requires p <= |a|
    ensures |a| == |b| && a[..p] == b[..p]
  {
    if p > 0 {
      StablePlanIsUnique(a, b, rankings, sim, free, p - 1);
      RoomOnItsTurn(a, rankings, sim, free, p - 1);
      RoomOnItsTurn(b, rankings, sim, free, p - 1);
      assert a[p - 1] == b[p - 1];
      assert a[..p] == a[..p - 1] + [a[p - 1]] && b[..p] == b[..p - 1] + [b[p - 1]];
    }
  }
}
