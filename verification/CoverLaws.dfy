/** Selections as index lists, and what the two covers optimise, written out. */
module CoverLaws {
  import opened BoundedCover
  import Lists

  /** The chosen indexes in order. */
  function Indexes(t: Tuple): seq<nat> {
    match t case Empty => [] case Append(front, last) => Indexes(front) + [last]
  }

  ghost predicate AreIncreasing(s: seq<nat>, n: nat) {
    (forall i, j :: 0 <= i < j < |s| ==> s[i] < s[j]) && forall i :: 0 <= i < |s| ==> s[i] < n
  }

  /** A selection is a strictly increasing list of indexes, and every such list is one. */
  lemma {:induction false} SelectionMeans(t: Tuple, n: nat)
    ensures IsSelection(t, n) <==> AreIncreasing(Indexes(t), n)
    ensures |Indexes(t)| == Length(t)
  {
    if t.Append? {
      SelectionMeans(t.front, t.last);
      OneMoreIndex(Indexes(t.front), t.last, n);
    }
  }

  lemma OneMoreIndex(s: seq<nat>, x: nat, n: nat)
    ensures AreIncreasing(s + [x], n) <==> AreIncreasing(s, x) && x < n
  {
    var longer := s + [x];
    assert longer[|s|] == x && forall i :: 0 <= i < |s| ==> longer[i] == s[i];
    if AreIncreasing(longer, n) {
      forall i | 0 <= i < |s| ensures s[i] < x { assert longer[i] < longer[|s|]; }
    }
  }

  lemma {:induction false} SomeTuple(s: seq<nat>) returns (t: Tuple)
    ensures Indexes(t) == s
  {
    if s == [] {
      t := Empty;
    } else {
      var front := SomeTuple(s[..|s| - 1]);
      t := Append(front, s[|s| - 1]);
      assert s == s[..|s| - 1] + [s[|s| - 1]];
    }
  }

  /** What a selection covers: the gold turns of its collections. */
  lemma {:induction false} CoveredMeans(t: Tuple, gold: set<int>, collections: seq<Collection>, turn: int)
    requires IsSelection(t, |collections|)
    ensures turn in Covered(t, gold, collections) <==>
      turn in gold && exists i :: i in Indexes(t) && i < |collections| && turn in collections[i].turns
    ensures turn in Turns(t, collections) <==>
      exists i :: i in Indexes(t) && i < |collections| && turn in collections[i].turns
  {
    if t.Append? {
      Widened(t.front, t.last, |collections|);
      CoveredMeans(t.front, gold, collections, turn);
      assert forall i :: i in Indexes(t) <==> i in Indexes(t.front) || i == t.last;
    }
  }

  /** The off-gold turns of each chosen collection. */
  function Strays(s: seq<nat>, gold: set<int>, collections: seq<Collection>): (sets: seq<set<int>>)
    ensures |sets| == |s|
  {
    seq(|s|, j requires 0 <= j < |s| => if s[j] < |collections| then collections[s[j]].turns - gold else {})
  }

  /** The cost: off-gold turns, counted once for each chosen collection. */
  lemma {:induction false} CostMeans(t: Tuple, gold: set<int>, collections: seq<Collection>)
    requires IsSelection(t, |collections|)
    ensures Cost(t, gold, collections) == Lists.SizeSum(Strays(Indexes(t), gold, collections))
  {
    if t.Append? {
      Widened(t.front, t.last, |collections|);
      CostMeans(t.front, gold, collections);
      var strays := Strays(Indexes(t), gold, collections);
      assert strays[..|strays| - 1] == Strays(Indexes(t.front), gold, collections);
    }
  }

  /** At the first place where the lists differ, `a` has the smaller index. */
  ghost predicate IsEarlierAt(a: seq<nat>, b: seq<nat>, k: nat) {
    k < |a| && k < |b| && a[..k] == b[..k] && a[k] < b[k]
  }

  lemma LongerLists(a: seq<nat>, b: seq<nat>, x: nat, y: nat, k: nat)
    requires |a| == |b|
    ensures IsEarlierAt(a + [x], b + [y], k) <==> IsEarlierAt(a, b, k) || (k == |a| && a == b && x < y)
  {
    if k < |a| {
      assert (a + [x])[..k] == a[..k] && (b + [y])[..k] == b[..k];
    } else if k == |a| {
      assert (a + [x])[..k] == a && (b + [y])[..k] == b;
    }
  }

  lemma {:induction false} SameIndexes(a: Tuple, b: Tuple)
    ensures Indexes(a) == Indexes(b) ==> a == b
  {
    if a.Append? && b.Append? && Indexes(a) == Indexes(b) {
      assert Indexes(a)[..|Indexes(a)| - 1] == Indexes(a.front) && Indexes(b)[..|Indexes(b)| - 1] == Indexes(b.front);
      assert Indexes(a)[|Indexes(a)| - 1] == a.last && Indexes(b)[|Indexes(b)| - 1] == b.last;
      SameIndexes(a.front, b.front);
    }
  }

  /** The order of tuples of one length. */
  lemma {:induction false} LexLessMeans(a: Tuple, b: Tuple)
    requires Length(a) == Length(b)
    ensures LexLess(a, b) <==> exists k: nat :: IsEarlierAt(Indexes(a), Indexes(b), k)
  {
    if a.Append? {
      SelectionMeans(a.front, 0);
      SelectionMeans(b.front, 0);
      LexLessMeans(a.front, b.front);
      SameIndexes(a.front, b.front);
      forall k: nat
        ensures IsEarlierAt(Indexes(a), Indexes(b), k) <==> (
          || IsEarlierAt(Indexes(a.front), Indexes(b.front), k)
          || (k == |Indexes(a.front)| && Indexes(a.front) == Indexes(b.front) && a.last < b.last))
      {
        LongerLists(Indexes(a.front), Indexes(b.front), a.last, b.last, k);
      }
      if LexLess(a, b) && a.front == b.front { assert IsEarlierAt(Indexes(a), Indexes(b), |Indexes(a.front)|); }
      if k: nat :| IsEarlierAt(Indexes(a.front), Indexes(b.front), k) { assert IsEarlierAt(Indexes(a), Indexes(b), k); }
    }
  }

  /** More is covered, or as much at less cost, or at that cost by fewer records, or by as many with earlier indexes. */
  ghost predicate IsPreferred(a: Tuple, b: Tuple, gold: set<int>, collections: seq<Collection>)
    requires IsSelection(a, |collections|) && IsSelection(b, |collections|)
  {
    var x, y := |Covered(a, gold, collections)|, |Covered(b, gold, collections)|;
    var c, d := Cost(a, gold, collections), Cost(b, gold, collections);
    || x > y
    || (x == y && c < d)
    || (x == y && c == d && |Indexes(a)| < |Indexes(b)|)
    || (x == y && c == d && |Indexes(a)| == |Indexes(b)| && exists k: nat :: IsEarlierAt(Indexes(a), Indexes(b), k))
  }

  lemma BeforeIsPreferred(a: Tuple, b: Tuple, gold: set<int>, collections: seq<Collection>)
    requires IsSelection(a, |collections|) && IsSelection(b, |collections|)
    ensures Before(RankOf(a, gold, collections), RankOf(b, gold, collections)) <==> IsPreferred(a, b, gold, collections)
  {
    SelectionMeans(a, |collections|);
    SelectionMeans(b, |collections|);
    if Length(a) == Length(b) { LexLessMeans(a, b); }
  }

  /** The optimum is one to which no selection of at most `count` collections is preferred. */
  lemma OptimalMeans(best: Tuple, gold: set<int>, collections: seq<Collection>, count: nat)
    ensures Optimal(best, gold, collections, count) <==> (
      && IsSelection(best, |collections|) && |Indexes(best)| <= count
      && forall t :: IsSelection(t, |collections|) && |Indexes(t)| <= count ==> !IsPreferred(t, best, gold, collections))
  {
    SelectionMeans(best, |collections|);
    forall t | IsSelection(t, |collections|)
      ensures |Indexes(t)| == Length(t)
      ensures IsSelection(best, |collections|) ==>
        (Before(RankOf(t, gold, collections), RankOf(best, gold, collections)) <==> IsPreferred(t, best, gold, collections))
    {
      SelectionMeans(t, |collections|);
      if IsSelection(best, |collections|) { BeforeIsPreferred(t, best, gold, collections); }
    }
  }

  /** The brute force: most gold turns, then fewest off-gold turns, then fewest turns, among choices of exactly `k`. */
  lemma BruteOptimalMeans(best: Tuple, gold: set<int>, collections: seq<Collection>, k: nat, t: Tuple)
    requires BruteOptimal(best, gold, collections, k) && IsSelection(t, |collections|) && |Indexes(t)| == k
    ensures |Indexes(best)| == k
    ensures var a, b := Turns(best, collections), Turns(t, collections);
      && |b * gold| <= |a * gold|
      && (|b * gold| == |a * gold| ==> |b - gold| >= |a - gold|)
      && (|b * gold| == |a * gold| && |b - gold| == |a - gold| ==> |b| >= |a|)
  {
    SelectionMeans(best, |collections|);
    SelectionMeans(t, |collections|);
    assert !KeyLess(BruteKey(Turns(best, collections), gold), BruteKey(Turns(t, collections), gold));
  }
}
