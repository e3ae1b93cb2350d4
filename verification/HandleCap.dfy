/** Capping recovered handles by greedy coverage, against every other choice of as many handles. */
module HandleCap {
  import opened Arithmetic
  import opened Lists
  import opened OrganizerBounds

  /** The known ids each handle covers. */
  function IdSets(handles: seq<Handle>, valid: set<Id>): (sets: seq<set<Id>>)
    ensures |sets| == |handles|
    ensures forall i :: 0 <= i < |handles| ==> sets[i] == Elements(handles[i].ids) * valid
  {
    seq(|handles|, i requires 0 <= i < |handles| => Elements(handles[i].ids) * valid)
  }

  predicate IsChoice(choice: set<nat>, n: nat) {
    forall i :: i in choice ==> i < n
  }

  /** The ids a choice of handles covers. */
  function Coverage(choice: set<nat>, sets: seq<set<Id>>): set<Id> {
    set id | id in Union(sets, |sets|) && IsCovered(id, choice, sets)
  }

  predicate IsCovered(id: Id, choice: set<nat>, sets: seq<set<Id>>) {
    exists i :: i in choice && i < |sets| && id in sets[i]
  }

  lemma CoverageAdd(choice: set<nat>, i: nat, sets: seq<set<Id>>)
    requires IsChoice(choice, |sets|) && i < |sets|
    ensures Coverage(choice + {i}, sets) == Coverage(choice, sets) + sets[i]
  {
    forall id ensures IsCovered(id, choice + {i}, sets) <==> IsCovered(id, choice, sets) || id in sets[i] {
      if id in sets[i] { assert i in choice + {i}; }
      if IsCovered(id, choice, sets) {
        var j :| j in choice && j < |sets| && id in sets[j];
        assert j in choice + {i};
      }
    }
  }

  /** The chosen handles in source order. */
  function Chosen(choice: set<nat>, handles: seq<Handle>): (r: seq<Handle>)
    ensures |r| <= |handles|
  {
    if handles == [] then []
    else
      var n := |handles| - 1;
      if n in choice then Chosen(choice, handles[..n]) + [handles[n]] else Chosen(choice, handles[..n])
  }

  /** The chosen handles are those at the chosen positions, in order. */
  lemma {:induction false} ChosenSelects(choice: set<nat>, handles: seq<Handle>) returns (at: seq<nat>)
    ensures Selects(at, handles, Chosen(choice, handles))
    ensures forall i: nat :: i in at <==> i < |handles| && i in choice
  {
    at := [];
    if handles != [] {
      var n := |handles| - 1;
      at := ChosenSelects(choice, handles[..n]);
      SelectsMore(at, handles, Chosen(choice, handles[..n]));
      if n in choice { at := at + [n]; }
    }
  }

  /** The known ids that some handle lists. */
  function KnownIn(handles: seq<Handle>, valid: set<Id>): set<Id> {
    set id | id in valid && exists h :: h in handles && id in h.ids
  }

  /** What a choice covers is what its handles list. */
  lemma CoverageIsKept(choice: set<nat>, handles: seq<Handle>, valid: set<Id>, at: seq<nat>, kept: seq<Handle>)
    requires IsChoice(choice, |handles|) && Selects(at, handles, kept) && Elements(at) == choice
    ensures Coverage(choice, IdSets(handles, valid)) == KnownIn(kept, valid)
  {
    var sets := IdSets(handles, valid);
    forall id ensures id in Coverage(choice, sets) <==> id in KnownIn(kept, valid) {
      if id in Coverage(choice, sets) {
        var i :| i in choice && i < |sets| && id in sets[i];
        assert i in Elements(at);
        var j :| 0 <= j < |at| && at[j] == i;
        assert kept[j] in kept;
      }
      if id in KnownIn(kept, valid) {
        var j :| 0 <= j < |kept| && id in kept[j].ids;
        assert at[j] in Elements(at) && id in sets[at[j]];
        assert IsCovered(id, choice, sets);
        assert sets[at[j]] <= Union(sets, |sets|);
      }
    }
  }

  lemma {:induction false} ChosenSize(choice: set<nat>, handles: seq<Handle>)
    requires IsChoice(choice, |handles|)
    ensures |Chosen(choice, handles)| == |choice|
  {
    if handles == [] {
      assert choice == {};
    } else {
      var n := |handles| - 1;
      ChosenSize(choice - {n}, handles[..n]);
      ChosenAgree(choice, choice - {n}, handles[..n]);
    }
  }

  lemma {:induction false} ChosenAgree(a: set<nat>, b: set<nat>, handles: seq<Handle>)
    requires forall i: nat :: i < |handles| ==> (i in a <==> i in b)
    ensures Chosen(a, handles) == Chosen(b, handles)
  {
    if handles != [] { ChosenAgree(a, b, handles[..|handles| - 1]); }
  }

  function Pow(b: nat, e: nat): nat {
    if e == 0 then 1 else b * Pow(b, e - 1)
  }

  /** With `Pow(b, 1) == b`, this is what a power is. */
  lemma {:induction false} PowAdds(b: nat, m: nat, n: nat)
    ensures Pow(b, 1) == b && Pow(b, m + n) == Pow(b, m) * Pow(b, n)
  {
    assert Pow(b, 1) == b * Pow(b, 0);
    if m > 0 {
      PowAdds(b, m - 1, n);
      assert Pow(b, m + n) == b * Pow(b, m - 1 + n);
    }
  }

  // ---------------------------------------------------------------- the greedy argument

  /** No handle adds more than `gain` ids to `covered`. */
  ghost predicate GainAtMost(covered: set<Id>, gain: nat, sets: seq<set<Id>>) {
    forall i :: 0 <= i < |sets| ==> |sets[i] - covered| <= gain
  }

  lemma UnionSize<T>(a: set<T>, b: set<T>)
    ensures |a + b| <= |a| + |b|
  {
    assert a + b == a + (b - a);
    SubsetSize(b - a, b);
  }

  /** A choice of handles adds at most `gain` ids for each of its handles. */
  lemma {:induction false} ChoiceGain(choice: set<nat>, covered: set<Id>, gain: nat, sets: seq<set<Id>>)
    requires IsChoice(choice, |sets|) && GainAtMost(covered, gain, sets)
    ensures |Coverage(choice, sets) - covered| <= |choice| * gain
  {
    if choice == {} {
      assert Coverage(choice, sets) == {};
    } else {
      var i :| i in choice;
      var rest := choice - {i};
      assert choice == rest + {i};
      ChoiceGain(rest, covered, gain, sets);
      CoverageAdd(rest, i, sets);
      OneMoreGain(Coverage(rest, sets), sets[i], covered, |rest|, gain);
      assert |choice| == |rest| + 1;
    }
  }

  lemma OneMoreGain(rest: set<Id>, one: set<Id>, covered: set<Id>, n: nat, gain: nat)
    requires |rest - covered| <= n * gain && |one - covered| <= gain
    ensures |(rest + one) - covered| <= (n + 1) * gain
  {
    assert (rest + one) - covered == (rest - covered) + (one - covered);
    UnionSize(rest - covered, one - covered);
  }

  /** After `i` greedy picks, the shortfall against a choice that covers `best` ids. */
  ghost predicate Shortfall(covered: nat, k: nat, i: nat, best: nat)
    requires k >= 1
  {
    Pow(k, i) * (best - covered) <= Pow(k - 1, i) * best
  }

  lemma GapStep(k: nat, power: nat, gap: int, gain: nat, bound: int)
    requires k >= 1 && gap <= k * gain && power * gap <= bound
    ensures k * power * (gap - gain) <= (k - 1) * bound
  {
    assert k * (gap - gain) <= (k - 1) * gap;
    MulMonotone(power, k * (gap - gain), (k - 1) * gap);
    MulMonotone(k - 1, power * gap, bound);
    assert power * (k * (gap - gain)) == k * power * (gap - gain);
    assert power * ((k - 1) * gap) == (k - 1) * (power * gap);
  }

  lemma ShortfallStep(covered: nat, gain: nat, k: nat, i: nat, best: nat)
    requires k >= 1 && best - covered <= k * gain && Shortfall(covered, k, i, best)
    ensures Shortfall(covered + gain, k, i + 1, best)
  {
    GapStep(k, Pow(k, i), best - covered, gain, Pow(k - 1, i) * best);
    assert (k - 1) * (Pow(k - 1, i) * best) == Pow(k - 1, i + 1) * best;
  }

  /** What is uncovered of a choice is at most what its handles could still gain. */
  lemma GapIsGainable(covered: set<Id>, gain: nat, k: nat, choice: set<nat>, sets: seq<set<Id>>)
    requires IsChoice(choice, |sets|) && |choice| <= k && GainAtMost(covered, gain, sets)
    ensures |Coverage(choice, sets)| - |covered| <= k * gain
  {
    var all := Coverage(choice, sets);
    ChoiceGain(choice, covered, gain, sets);
    assert gain * |choice| <= gain * k by { MulMonotone(gain, |choice|, k); }
    UnionSize(all - covered, covered);
    SubsetSize(all, (all - covered) + covered);
  }

  /** A competing choice of at most `k` handles. */
  ghost predicate Rival(other: set<nat>, k: nat, sets: seq<set<Id>>) {
    IsChoice(other, |sets|) && |other| <= k
  }

  /** The classical bound after `i` of `k` picks, against every choice of at most `k` handles. */
  ghost predicate WithinBound(covered: nat, k: nat, i: nat, sets: seq<set<Id>>)
    requires k >= 1
  {
    forall other {:trigger Rival(other, k, sets)} :: Rival(other, k, sets) ==>
      Shortfall(covered, k, i, |Coverage(other, sets)|)
  }

  /** The bound after all `k` picks, written out: the shortfall is at most (1 - 1/k)^k of what any rival covers. */
  lemma BoundMeans(covered: nat, k: nat, other: set<nat>, sets: seq<set<Id>>)
    requires k >= 1 && WithinBound(covered, k, k, sets)
    requires |other| <= k && forall i :: i in other ==> i < |sets|
    ensures Pow(k, k) * (|Coverage(other, sets)| - covered) <= Pow(k - 1, k) * |Coverage(other, sets)|
  {
    assert Rival(other, k, sets);
    assert Shortfall(covered, k, k, |Coverage(other, sets)|);
  }

  lemma PickKeepsBound(covered: set<Id>, more: set<Id>, k: nat, i: nat, sets: seq<set<Id>>)
    requires k >= 1 && more !! covered && GainAtMost(covered, |more|, sets) && WithinBound(|covered|, k, i, sets)
    ensures WithinBound(|covered + more|, k, i + 1, sets)
  {
    forall other | Rival(other, k, sets)
      ensures Shortfall(|covered + more|, k, i + 1, |Coverage(other, sets)|)
    {
      GapIsGainable(covered, |more|, k, other, sets);
      ShortfallStep(|covered|, |more|, k, i, |Coverage(other, sets)|);
    }
  }

  lemma NoShortfall(covered: nat, k: nat, best: nat)
    requires k >= 1 && best <= covered
    ensures Shortfall(covered, k, k, best)
  {
    MulMonotone(Pow(k, k), best - covered, 0);
  }

  /** When nothing is left to gain, there is no shortfall at all. */
  lemma NothingLeft(covered: set<Id>, k: nat, sets: seq<set<Id>>)
    requires k >= 1 && GainAtMost(covered, 0, sets)
    ensures WithinBound(|covered|, k, k, sets)
  {
    forall other | Rival(other, k, sets) ensures Shortfall(|covered|, k, k, |Coverage(other, sets)|) {
      GapIsGainable(covered, 0, k, other, sets);
      NoShortfall(|covered|, k, |Coverage(other, sets)|);
    }
  }

  // ---------------------------------------------------------------- the selector

  /** The first handle of greatest gain among those not taken, and it gains something. */
  ghost predicate IsNext(taken: set<nat>, best: nat, sets: seq<set<Id>>) {
    var covered := Coverage(taken, sets);
    && best < |sets| && best !in taken && |sets[best] - covered| > 0
    && GainAtMost(covered, |sets[best] - covered|, sets)
    && (forall j: nat :: j < best && j !in taken ==> |sets[j] - covered| < |sets[best] - covered|)
  }

  ghost predicate IsPick(picks: seq<nat>, k: nat, sets: seq<set<Id>>)
    requires k < |picks|
  {
    IsNext(Elements(picks[..k]), picks[k], sets)
  }

  ghost predicate ArePicks(picks: seq<nat>, sets: seq<set<Id>>) {
    forall k: nat :: k < |picks| ==> IsPick(picks, k, sets)
  }

  /** The whole selection: picks up to the limit, fewer only when nothing is left to gain. */
  ghost predicate IsGreedyRun(picks: seq<nat>, limit: nat, sets: seq<set<Id>>) {
    && ArePicks(picks, sets) && |picks| <= limit
    && (|picks| < limit ==> GainAtMost(Coverage(Elements(picks), sets), 0, sets))
  }

  lemma PicksAppend(picks: seq<nat>, best: nat, sets: seq<set<Id>>)
    requires ArePicks(picks, sets) && IsNext(Elements(picks), best, sets)
    ensures ArePicks(picks + [best], sets)
  {
    var longer := picks + [best];
    forall k: nat | k < |longer| ensures IsPick(longer, k, sets) {
      assert longer[..k] == picks[..k];
      if k == |picks| { assert picks[..k] == picks; } else { assert IsPick(picks, k, sets); }
    }
  }

  lemma NextIsUnique(taken: set<nat>, a: nat, b: nat, sets: seq<set<Id>>)
    requires IsNext(taken, a, sets) && IsNext(taken, b, sets)
    ensures a == b
  {
  }

  lemma PickAgrees(a: seq<nat>, b: seq<nat>, k: nat, sets: seq<set<Id>>)
    requires ArePicks(a, sets) && ArePicks(b, sets) && k < |a| && k < |b| && a[..k] == b[..k]
    ensures a[k] == b[k]
  {
    assert IsPick(a, k, sets) && IsPick(b, k, sets);
    NextIsUnique(Elements(a[..k]), a[k], b[k], sets);
  }

  lemma {:induction false} PicksAgree(a: seq<nat>, b: seq<nat>, k: nat, sets: seq<set<Id>>)
    requires ArePicks(a, sets) && ArePicks(b, sets) && k <= |a| && k <= |b|
    ensures a[..k] == b[..k]
  {
    if k > 0 {
      PicksAgree(a, b, k - 1, sets);
      PickAgrees(a, b, k - 1, sets);
      assert a[..k] == a[..k - 1] + [a[k - 1]] && b[..k] == b[..k - 1] + [b[k - 1]];
    }
  }

  /** Where one run stopped for want of gain, no other goes on. */
  lemma NoLongerRun(a: seq<nat>, b: seq<nat>, limit: nat, sets: seq<set<Id>>)
    requires IsGreedyRun(a, limit, sets) && IsGreedyRun(b, limit, sets)
    ensures |a| >= |b|
  {
    if |a| < |b| {
      PicksAgree(a, b, |a|, sets);
      assert a[..|a|] == a;
      LaterPickGains(b, |a|, sets);
      assert false;
    }
  }

  lemma LaterPickGains(picks: seq<nat>, k: nat, sets: seq<set<Id>>)
    requires ArePicks(picks, sets) && k < |picks|
    ensures !GainAtMost(Coverage(Elements(picks[..k]), sets), 0, sets)
  {
    assert IsPick(picks, k, sets);
  }

  /** The sets and the limit fix every pick. */
  lemma GreedyRunIsUnique(a: seq<nat>, b: seq<nat>, limit: nat, sets: seq<set<Id>>)
    requires IsGreedyRun(a, limit, sets) && IsGreedyRun(b, limit, sets)
    ensures a == b
  {
    NoLongerRun(a, b, limit, sets);
    NoLongerRun(b, a, limit, sets);
    PicksAgree(a, b, |a|, sets);
    assert a[..|a|] == a && b[..|b|] == b;
  }

  /** The handle that adds most new ids, the earliest among equals. */
  method MostNew(sets: seq<set<Id>>, selected: set<nat>, covered: set<Id>) returns (best: nat)
    requires exists i: nat :: i < |sets| && i !in selected
    requires forall i: nat :: i < |sets| && i in selected ==> sets[i] <= covered
    ensures best < |sets| && best !in selected
    ensures GainAtMost(covered, |sets[best] - covered|, sets)
    ensures forall j: nat :: j < best && j !in selected ==> |sets[j] - covered| < |sets[best] - covered|
  {
    var found := false;
    best := 0;
    for i := 0 to |sets|
      invariant found ==> best < i && best !in selected
      invariant !found ==> forall j: nat :: j < i ==> j in selected
      invariant found ==> forall j: nat :: j < i && j !in selected ==> |sets[j] - covered| <= |sets[best] - covered|
      invariant found ==> forall j: nat :: j < best && j !in selected ==> |sets[j] - covered| < |sets[best] - covered|
    {
      if i !in selected && (!found || |sets[i] - covered| > |sets[best] - covered|) { found, best := true, i; }
    }
    forall j: nat | j < |sets| && j in selected ensures |sets[j] - covered| == 0 {
      assert sets[j] - covered == {};
    }
  }

  lemma SelectedAreCovered(selected: set<nat>, sets: seq<set<Id>>)
    requires IsChoice(selected, |sets|)
    ensures forall i: nat :: i < |sets| && i in selected ==> sets[i] <= Coverage(selected, sets)
  {
  }

  /** What holds after every pick. */
  ghost predicate Greedy(selected: set<nat>, covered: set<Id>, limit: nat, sets: seq<set<Id>>) {
    && IsChoice(selected, |sets|) && |selected| <= limit
    && covered == Coverage(selected, sets)
    && (limit >= 1 ==> WithinBound(|covered|, limit, |selected|, sets))
  }

  lemma PickedCoverage(selected: set<nat>, covered: set<Id>, best: nat, limit: nat, sets: seq<set<Id>>)
    requires IsChoice(selected, |sets|) && |selected| < limit && covered == Coverage(selected, sets)
    requires best < |sets| && best !in selected
    ensures IsChoice(selected + {best}, |sets|) && |selected + {best}| <= limit
    ensures covered + (sets[best] - covered) == Coverage(selected + {best}, sets)
  {
    CoverageAdd(selected, best, sets);
    AddedSize(selected, best);
  }

  lemma PickedBound(selected: set<nat>, covered: set<Id>, best: nat, limit: nat, sets: seq<set<Id>>)
    requires |selected| < limit && WithinBound(|covered|, limit, |selected|, sets)
    requires best < |sets| && best !in selected && GainAtMost(covered, |sets[best] - covered|, sets)
    ensures WithinBound(|covered + (sets[best] - covered)|, limit, |selected + {best}|, sets)
  {
    AddedSize(selected, best);
    PickKeepsBound(covered, sets[best] - covered, limit, |selected|, sets);
  }

  lemma StoppedEarly(covered: set<Id>, best: nat, limit: nat, sets: seq<set<Id>>)
    requires limit >= 1 && best < |sets| && sets[best] - covered == {}
    requires GainAtMost(covered, |sets[best] - covered|, sets)
    ensures GainAtMost(covered, 0, sets) && WithinBound(|covered|, limit, limit, sets)
  {
    NothingLeft(covered, limit, sets);
  }

  lemma NothingPicked(limit: nat, sets: seq<set<Id>>)
    ensures Greedy({}, {}, limit, sets)
  {
    assert Coverage({}, sets) == {};
    if limit >= 1 {
      forall other | Rival(other, limit, sets) ensures Shortfall(0, limit, 0, |Coverage(other, sets)|) {
        assert Pow(limit, 0) == 1 && Pow(limit - 1, 0) == 1;
      }
    }
  }

  method NextPick(sets: seq<set<Id>>, selected: set<nat>, covered: set<Id>, ghost limit: nat) returns (best: nat)
    requires Greedy(selected, covered, limit, sets) && |selected| < |sets|
    ensures best < |sets| && best !in selected
    ensures GainAtMost(covered, |sets[best] - covered|, sets)
    ensures sets[best] - covered != {} ==> IsNext(selected, best, sets)
  {
    SomeUnselected(selected, |sets|);
    SelectedAreCovered(selected, sets);
    best := MostNew(sets, selected, covered);
  }

  /** The picks so far, as a run and as the set of their handles. */
  ghost predicate Follows(picks: seq<nat>, selected: set<nat>, sets: seq<set<Id>>) {
    ArePicks(picks, sets) && Elements(picks) == selected && |picks| == |selected|
  }

  lemma PickFollows(picks: seq<nat>, selected: set<nat>, best: nat, sets: seq<set<Id>>)
    requires Follows(picks, selected, sets) && IsNext(selected, best, sets)
    ensures Follows(picks + [best], selected + {best}, sets)
  {
    PicksAppend(picks, best, sets);
    AddedSize(selected, best);
    assert Elements(picks + [best]) == Elements(picks) + {best};
  }

  lemma PickIsGreedy(selected: set<nat>, covered: set<Id>, best: nat, limit: nat, sets: seq<set<Id>>)
    requires Greedy(selected, covered, limit, sets) && |selected| < limit && IsNext(selected, best, sets)
    ensures Greedy(selected + {best}, covered + (sets[best] - covered), limit, sets)
  {
    PickedCoverage(selected, covered, best, limit, sets);
    PickedBound(selected, covered, best, limit, sets);
  }

  /** The greedy loop: it stops at `limit` handles, or when no handle adds anything. */
  method SelectGreedily(sets: seq<set<Id>>, limit: nat)
    returns (selected: set<nat>, covered: set<Id>, ghost picks: seq<nat>)
    requires limit < |sets| || limit == 0
    ensures IsGreedyRun(picks, limit, sets) && Elements(picks) == selected
    ensures IsChoice(selected, |sets|) && |selected| <= limit
    ensures covered == Coverage(selected, sets)
    ensures |selected| < limit ==> GainAtMost(covered, 0, sets)
    ensures limit >= 1 ==> WithinBound(|covered|, limit, limit, sets)
  {
    selected, covered, picks := {}, {}, [];
    NothingPicked(limit, sets);
    while |selected| < limit
      invariant Greedy(selected, covered, limit, sets)
      invariant Follows(picks, selected, sets)
      decreases limit - |selected|
    {
      var best := NextPick(sets, selected, covered, limit);
      var newIds := sets[best] - covered;
      if newIds == {} {
        StoppedEarly(covered, best, limit, sets);
        return;
      }
      PickIsGreedy(selected, covered, best, limit, sets);
      PickFollows(picks, selected, best, sets);
      picks := picks + [best];
      selected := selected + {best};
      covered := covered + newIds;
    }
  }

  lemma {:induction false} SomeUnselected(selected: set<nat>, n: nat)
    requires |selected| < n
    ensures exists i: nat :: i < n && i !in selected
  {
    if n - 1 in selected {
      SomeUnselected(selected - {n - 1}, n - 1);
      var i: nat :| i < n - 1 && i !in selected - {n - 1};
      assert i !in selected;
    }
  }

  lemma {:induction false} ChosenAll(choice: set<nat>, handles: seq<Handle>)
    requires forall i: nat :: i < |handles| ==> i in choice
    ensures Chosen(choice, handles) == handles
  {
    if handles != [] {
      ChosenAll(choice, handles[..|handles| - 1]);
      assert handles == handles[..|handles| - 1] + [handles[|handles| - 1]];
    }
  }

  lemma AllIsCovered(sets: seq<set<Id>>, selected: set<nat>)
    requires selected == Below(|sets|)
    ensures GainAtMost(Coverage(selected, sets), 0, sets)
  {
    SelectedAreCovered(selected, sets);
    forall i | 0 <= i < |sets| ensures |sets[i] - Coverage(selected, sets)| <= 0 {
      assert sets[i] - Coverage(selected, sets) == {};
    }
  }

  /** All handles when they fit, the greedy selection otherwise. */
  method SelectHandles(sets: seq<set<Id>>, limit: int)
    returns (selected: set<nat>, covered: set<Id>, ghost picks: seq<nat>)
    ensures IsChoice(selected, |sets|) && covered == Coverage(selected, sets)
    ensures |sets| <= limit ==> selected == Below(|sets|)
    ensures |sets| > limit ==>
      IsGreedyRun(picks, if limit < 0 then 0 else limit, sets) && selected == Elements(picks)
    ensures |selected| <= limit || selected == {}
    ensures |selected| < limit ==> GainAtMost(covered, 0, sets)
    ensures limit >= 1 ==> WithinBound(|covered|, limit, limit, sets)
  {
    picks := [];
    if |sets| <= limit {
      selected := Below(|sets|);
      BelowSize(|sets|);
      covered := Coverage(selected, sets);
      AllIsCovered(sets, selected);
      if limit >= 1 { NothingLeft(covered, limit, sets); }
    } else {
      selected, covered, picks := SelectGreedily(sets, if limit < 0 then 0 else limit);
    }
  }

  /** `_cap_recovered_handles`: at most `limit` handles in source order, and how many known ids they cover. */
  method CapRecovered(handles: seq<Handle>, valid: set<Id>, limit: int)
    returns (kept: seq<Handle>, covered: nat, selected: set<nat>, ghost picks: seq<nat>, ghost at: seq<nat>)
    ensures IsChoice(selected, |handles|) && Selects(at, handles, kept) && Elements(at) == selected
    ensures covered == |KnownIn(kept, valid)|
    ensures |handles| <= limit ==> kept == handles
    ensures |handles| > limit ==>
      IsGreedyRun(picks, if limit < 0 then 0 else limit, IdSets(handles, valid)) && selected == Elements(picks)
    ensures |kept| <= limit || kept == []
    ensures |kept| < limit ==> GainAtMost(KnownIn(kept, valid), 0, IdSets(handles, valid))
    ensures limit >= 1 ==> WithinBound(covered, limit, limit, IdSets(handles, valid))
  {
    var ids;
    selected, ids, picks := SelectHandles(IdSets(handles, valid), limit);
    kept, covered := Chosen(selected, handles), |ids|;
    ChosenSize(selected, handles);
    at := ChosenSelects(selected, handles);
    assert Elements(at) == selected;
    CoverageIsKept(selected, handles, valid, at, kept);
    if |handles| <= limit { ChosenAll(selected, handles); }
  }
}
