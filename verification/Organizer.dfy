/** The organizer's handle list and the operations that change it in place. */
module Organizer {
  import opened Wrappers
  import opened Lists
  import opened OrganizerBounds
  import opened Assignments
  import opened StringOrder
  import CapacityPlanner

  datatype Report = Report(
    duplicatesRemoved: nat, overfullBefore: nat, overmemberedBefore: nat,
    membershipRemoved: nat, capacityRemoved: nat, dropped: set<Id>, emptyRemoved: nat)

  function Overfull(handles: seq<Handle>, known: seq<Id>, cap: nat): set<nat> {
    set h: nat | h < |handles| && Size(handles[h], known) > cap
  }

  function Overmembered(handles: seq<Handle>, known: seq<Id>, limit: nat): set<Id> {
    set id | id in known && |Owners(handles, id)| > limit
  }

  ghost function ReportOf(handles: seq<Handle>, known: seq<Id>, cap: nat, limit: nat): Report
    requires Ready(handles, known)
  {
    DeduplicatedIsReady(handles, known);
    var hs := Deduplicated(handles);
    Report(|handles| - |hs|, |Overfull(hs, known, cap)|, |Overmembered(hs, known, limit)|,
           MembershipCuts(hs, known, limit, |hs|), CapacityCuts(hs, known, cap, limit, |hs|),
           Union(Drops(hs, known, cap, limit), |hs|), |hs| - |NonEmpty(Trims(hs, known, cap, limit))|)
  }

  /** Enforcement and its report, said without the functions that compute them: `hs` are the first handles of each
      identity, bounding them gives the new list, and the counts are those of the references it takes away. */
  ghost predicate IsEnforced(before: seq<Handle>, after: seq<Handle>, known: seq<Id>, cap: nat, limit: nat, report: Report) {
    exists first, hs :: Selects(first, before, hs) && AreNew(first, before) && Ready(hs, known)
      && AreBounded(hs, after, known, cap, limit) && IsReport(before, hs, after, known, cap, limit, report)
  }

  ghost predicate IsReport(before: seq<Handle>, hs: seq<Handle>, after: seq<Handle>, known: seq<Id>, cap: nat, limit: nat,
                           report: Report)
    requires Ready(hs, known)
  {
    && report.duplicatesRemoved == |before| - |hs| && report.emptyRemoved == |hs| - |after|
    && report.overfullBefore == |set h: nat | h < |hs| && |KnownOf(hs[h], known)| > cap|
    && report.overmemberedBefore == |set id | id in known && |Owners(hs, id)| > limit|
    && report.membershipRemoved == SizeSum(EachOverowned(hs, known, limit, |hs|))
    && report.capacityRemoved == SizeSum(EachTrimmedOff(hs, known, cap, limit, |hs|))
    && forall id :: id in report.dropped <==> exists h: nat :: h < |hs| && id in TrimmedOff(hs, known, cap, limit, h)
  }

  lemma OverfullMeans(hs: seq<Handle>, known: seq<Id>, cap: nat)
    requires UniqueIds(hs)
    ensures Overfull(hs, known, cap) == set h: nat | h < |hs| && |KnownOf(hs[h], known)| > cap
  {
    forall h: nat | h < |hs| ensures Size(hs[h], known) == |KnownOf(hs[h], known)| { SizeCounts(hs[h], known); }
  }

  lemma ReportMeans(before: seq<Handle>, known: seq<Id>, cap: nat, limit: nat)
    requires Ready(before, known)
    ensures Ready(Deduplicated(before), known)
    ensures IsReport(before, Deduplicated(before), Enforced(before, known, cap, limit), known, cap, limit,
                     ReportOf(before, known, cap, limit))
  {
    DeduplicatedIsReady(before, known);
    var hs := Deduplicated(before);
    OverfullMeans(hs, known, cap);
    MembershipCutsCount(hs, known, limit, |hs|);
    CapacityCutsCount(hs, known, cap, limit, |hs|);
    forall id ensures id in ReportOf(before, known, cap, limit).dropped <==>
      exists h: nat :: h < |hs| && id in TrimmedOff(hs, known, cap, limit, h)
    {
      DropsMean(hs, known, cap, limit, id);
    }
  }

  lemma EnforcementMeans(before: seq<Handle>, known: seq<Id>, cap: nat, limit: nat)
    requires Ready(before, known)
    ensures IsEnforced(before, Enforced(before, known, cap, limit), known, cap, limit, ReportOf(before, known, cap, limit))
  {
    var first := EnforcedMeans(before, known, cap, limit);
    ReportMeans(before, known, cap, limit);
    assert Selects(first, before, Deduplicated(before));
  }

  /** The verbatim handle of an item no other handle holds. */
  function Singleton(id: Id, text: string): Handle {
    Handle("Unclustered source item " + id, text, [id])
  }

  function Singletons(ids: seq<Id>, texts: Id -> string): seq<Handle> {
    seq(|ids|, i requires 0 <= i < |ids| => Singleton(ids[i], texts(ids[i])))
  }

  lemma {:induction false} SingletonsAdd(handles: seq<Handle>, ids: seq<Id>, texts: Id -> string, id: Id)
    requires Distinct(ids)
    ensures Memberships(handles + Singletons(ids, texts), id) == Memberships(handles, id) + if id in ids then 1 else 0
  {
    if ids == [] {
      assert handles + Singletons(ids, texts) == handles;
    } else {
      var n := |ids| - 1;
      assert ids == ids[..n] + [ids[n]];
      assert handles + Singletons(ids, texts)
          == (handles + Singletons(ids[..n], texts)) + [Singleton(ids[n], texts(ids[n]))];
      SingletonsAdd(handles, ids[..n], texts, id);
      MembershipsAppend(handles + Singletons(ids[..n], texts), Singleton(ids[n], texts(ids[n])), id);
    }
  }

  /** Every known id is held, by at most `limit` handles, and no handle is empty or over `cap`. */
  ghost predicate WellOrganized(handles: seq<Handle>, known: seq<Id>, cap: nat, limit: nat) {
    && (forall id :: id in known ==> 1 <= Memberships(handles, id) <= limit)
    && (forall h :: 0 <= h < |handles| ==> Size(handles[h], known) <= cap && handles[h].ids != [])
  }

  lemma {:induction false} HeldIdsHaveMembers(handles: seq<Handle>, id: Id)
    ensures Memberships(handles, id) > 0 <==> exists h :: 0 <= h < |handles| && id in handles[h].ids
  {
    MembershipsAreOwners(handles, id);
    if h: nat :| h < |handles| && id in handles[h].ids {
      assert h in Owners(handles, id);
    } else {
      assert Owners(handles, id) == {};
    }
  }

  /** What the bounding loop accumulates. */
  datatype Tally = Tally(bounded: seq<Handle>, membership: nat, capacity: nat, dropped: set<Id>)

  ghost function TallyOf(handles: seq<Handle>, known: seq<Id>, cap: nat, limit: nat, h: nat): Tally
    requires h <= |handles| && Ready(handles, known)
  {
    Tally(NonEmpty(Trims(handles, known, cap, limit)[..h]), MembershipCuts(handles, known, limit, h),
          CapacityCuts(handles, known, cap, limit, h), Union(Drops(handles, known, cap, limit), h))
  }

  /** The body of the bounding loop for one handle. */
  method BoundOne(handles: seq<Handle>, known: seq<Id>, cap: nat, limit: nat, h: nat, tally: Tally) returns (next: Tally)
    requires h < |handles| && Ready(handles, known)
    requires tally == TallyOf(handles, known, cap, limit, h)
    ensures next == TallyOf(handles, known, cap, limit, h + 1)
  {
    TallyStep(handles, known, cap, limit, h);
    var valid := Valid(handles, known, limit, h);
    var kept := Kept(handles, known, cap, limit, h);
    var ids := kept + Unknown(handles[h], known);
    next := Tally(if ids == [] then tally.bounded else tally.bounded + [handles[h].(ids := ids)],
                  tally.membership + |Filter(handles[h].ids, Elements(known) - PermittedIds(handles, known, limit, h))|,
                  tally.capacity + (|valid| - |kept|),
                  tally.dropped + (Elements(valid) - Elements(kept)));
  }

  lemma TallyStep(handles: seq<Handle>, known: seq<Id>, cap: nat, limit: nat, h: nat)
    requires h < |handles| && Ready(handles, known)
    ensures var valid, kept := Valid(handles, known, limit, h), Kept(handles, known, cap, limit, h);
      var ids := kept + Unknown(handles[h], known);
      var before, after := TallyOf(handles, known, cap, limit, h), TallyOf(handles, known, cap, limit, h + 1);
      && |kept| <= |valid|
      && after.bounded == (if ids == [] then before.bounded else before.bounded + [handles[h].(ids := ids)])
      && after.membership == before.membership
           + |Filter(handles[h].ids, Elements(known) - PermittedIds(handles, known, limit, h))|
      && after.capacity == before.capacity + (|valid| - |kept|)
      && after.dropped == before.dropped + (Elements(valid) - Elements(kept))
  {
    NonEmptyStep(Trims(handles, known, cap, limit), h);
    TrimmedSize(handles, known, cap, limit, h);
  }

  /** The bounding loop over the deduplicated handles. */
  method BoundAll(handles: seq<Handle>, known: seq<Id>, cap: nat, limit: nat) returns (tally: Tally)
    requires Ready(handles, known)
    ensures tally == TallyOf(handles, known, cap, limit, |handles|)
  {
    tally := Tally([], 0, 0, {});
    assert tally == TallyOf(handles, known, cap, limit, 0);
    for h := 0 to |handles|
      invariant tally == TallyOf(handles, known, cap, limit, h)
    {
      tally := BoundOne(handles, known, cap, limit, h, tally);
    }
  }

  lemma SingletonFits(id: Id, text: string, known: seq<Id>)
    ensures Singleton(id, text).ids != [] && Size(Singleton(id, text), known) <= 1
  {
    assert Filter([id], Elements(known)) == if id in known then [id] else [];
  }

  lemma SizesAfterCompletion(bounded: seq<Handle>, known: seq<Id>, cap: nat, completed: seq<Id>, texts: Id -> string)
    requires cap >= 1
    requires forall h :: 0 <= h < |bounded| ==> Size(bounded[h], known) <= cap && bounded[h].ids != []
    ensures var handles := bounded + Singletons(completed, texts);
      forall h :: 0 <= h < |handles| ==> Size(handles[h], known) <= cap && handles[h].ids != []
  {
    forall i | 0 <= i < |completed|
      ensures Singletons(completed, texts)[i].ids != [] && Size(Singletons(completed, texts)[i], known) <= cap
    {
      SingletonFits(completed[i], texts(completed[i]), known);
    }
  }

  lemma CompletionOrganizes(before: seq<Handle>, known: seq<Id>, cap: nat, limit: nat,
                            completed: seq<Id>, texts: Id -> string)
    requires Ready(before, known) && cap >= 1 && limit >= 1
    requires Distinct(completed)
    requires forall id :: id in completed <==>
      id in known && Memberships(Enforced(before, known, cap, limit), id) == 0
    ensures WellOrganized(Enforced(before, known, cap, limit) + Singletons(completed, texts), known, cap, limit)
  {
    var bounded := Enforced(before, known, cap, limit);
    var handles := bounded + Singletons(completed, texts);
    forall id | id in known ensures 1 <= Memberships(handles, id) <= limit {
      MembershipsAreBounded(before, known, cap, limit, id);
      SingletonsAdd(bounded, completed, texts, id);
    }
    HandlesAreBounded(before, known, cap, limit);
    SizesAfterCompletion(bounded, known, cap, completed, texts);
  }

  /** The similarity of an unassigned item, by its position, to each handle. */
  function ScoresOf(ids: seq<Id>, sim: (Id, nat) -> real): (scores: CapacityPlanner.Similarity)
    ensures forall i: nat, h: nat :: i < |ids| ==> scores(i, h) == sim(ids[i], h)
  {
    (i: nat, h: nat) => if i < |ids| then sim(ids[i], h) else 0.0
  }

  /** A planned id survives the bounds of the same cap, so it is not completed by a handle of its own. */
  lemma PlannedIdsStay(o: Outcome, plan: seq<CapacityPlanner.Assignment>, before: seq<Handle>, ids: seq<Id>,
                       known: seq<Id>, cap: nat, limit: nat, id: Id)
    requires Ready(o.handles, known) && limit >= 1 && id in known && id in ids && Held(o.handles, id)
    requires Fits(plan, before, ids, cap) && PlanApplied(o, plan, before, ids, |plan|)
    ensures Memberships(Enforced(o.handles, known, cap, limit), id) > 0
  {
    HeldIdsHaveMembers(o.handles, id);
    forall h | 0 <= h < |o.handles| && id in o.handles[h].ids ensures |o.handles[h].ids| <= cap {
      PlannedHandlesFit(o, plan, before, ids, cap, h, id);
    }
    UncrowdedIdsStay(o.handles, known, cap, limit, id);
  }

  lemma PlacedIdsStay(o: Outcome, plan: seq<CapacityPlanner.Assignment>, before: seq<Handle>, ids: seq<Id>,
                      known: seq<Id>, cap: nat, limit: nat)
    requires Ready(o.handles, known) && limit >= 1 && (forall id :: id in ids ==> id in known)
    requires Fits(plan, before, ids, cap) && PlanApplied(o, plan, before, ids, |plan|)
    requires forall id :: id in o.placed ==> Held(o.handles, id)
    ensures |o.placed| == |plan|
    ensures forall id :: id in o.placed ==> id in ids && Memberships(Enforced(o.handles, known, cap, limit), id) > 0
  {
    PlacedSize(plan, ids, before, cap, |plan|);
    forall id | id in o.placed ensures id in ids && Memberships(Enforced(o.handles, known, cap, limit), id) > 0 {
      PlacedEarlier(plan, ids, |plan|, id);
      PlannedIdsStay(o, plan, before, ids, known, cap, limit, id);
    }
  }

  function UnassignedIds(handles: seq<Handle>, known: seq<Id>): set<Id> {
    set id | id in known && Memberships(handles, id) == 0
  }

  class HandleList {
    var handles: seq<Handle>

    /** `_normalize_handles`: the reply's handles, each listing an id once. */
    constructor (reply: seq<Handle>)
      ensures handles == seq(|reply|, h requires 0 <= h < |reply| => reply[h].(ids := FirstOccurrences(reply[h].ids)))
      ensures UniqueIds(handles)
    {
      handles := seq(|reply|, h requires 0 <= h < |reply| => reply[h].(ids := FirstOccurrences(reply[h].ids)));
    }

    /** `_apply_assignments`: place what can be placed, report the rest. */
    method ApplyAssignments(entries: seq<Entry>, expected: set<Id>, cap: nat)
      returns (placed: set<Id>, invalid: set<Issue>)
      modifies this
      ensures Outcome(handles, placed, invalid) == Applied(old(handles), entries, |entries|, expected, cap)
    {
      placed, invalid := {}, {};
      for k := 0 to |entries|
        invariant Outcome(handles, placed, invalid) == Applied(old(handles), entries, k, expected, cap)
      {
        if entries[k].Entry? {
          var id, numbers := entries[k].id, FirstOccurrences(entries[k].numbers);
          if id !in expected {
            invalid := invalid + {UnexpectedId(id)};
          } else if !Usable(numbers, |handles|) {
            invalid := invalid + {BadNumbers(id)};
          } else {
            var more, refused := PlaceInAll(id, numbers, cap, placed, invalid);
            placed, invalid := more, refused;
          }
        }
      }
    }

    /** The loop over the handle numbers of one assignment. */
    method PlaceInAll(id: Id, numbers: seq<Number>, cap: nat, placed: set<Id>, invalid: set<Issue>)
      returns (more: set<Id>, refused: set<Issue>)
      requires Usable(numbers, |handles|)
      modifies this
      ensures Outcome(handles, more, refused)
           == OfferedAll(Outcome(old(handles), placed, invalid), id, numbers, |numbers|, cap)
    {
      more, refused := placed, invalid;
      for k := 0 to |numbers|
        invariant |handles| == old(|handles|)
        invariant Outcome(handles, more, refused)
               == OfferedAll(Outcome(old(handles), placed, invalid), id, numbers, k, cap)
      {
        var h := numbers[k].n - 1;
        if id !in handles[h].ids && |handles[h].ids| >= cap {
          refused := refused + {FullHandle(id, numbers[k].n)};
        } else {
          if id !in handles[h].ids {
            handles := handles[h := handles[h].(ids := handles[h].ids + [id])];
          }
          more := more + {id};
        }
      }
    }

    /** The embedding pass: plan every unassigned id by capacity and apply the plan. */
    method AssignByCapacity(known: seq<Id>, sim: (Id, nat) -> real, cap: nat)
      returns (ids: seq<Id>, rankings: seq<CapacityPlanner.Confidence>, plan: seq<CapacityPlanner.Assignment>,
               placed: set<Id>, invalid: set<Issue>)
      requires Ready(handles, known)
      modifies this
      ensures Ready(handles, known)
      ensures Ascending(ids) && forall id :: id in ids <==> id in known && Memberships(old(handles), id) == 0
      ensures CapacityPlanner.IsRanking(rankings, ScoresOf(ids, sim), Room(old(handles), cap), |ids|)
      ensures CapacityPlanner.IsStablePlan(plan, rankings, ScoresOf(ids, sim), Room(old(handles), cap))
      ensures Fits(plan, old(handles), ids, cap)
      ensures PlanApplied(Outcome(handles, placed, invalid), plan, old(handles), ids, |plan|)
      ensures forall id :: id in placed ==> Held(handles, id)
      ensures |plan| == var room := CapacityPlanner.Sum(Room(old(handles), cap)); if |ids| < room then |ids| else room
      ensures Grew(old(handles), Outcome(handles, placed, invalid), cap)
    {
      ids := Unassigned(known);
      rankings, plan := CapacityPlanner.Plan(ScoresOf(ids, sim), Room(handles, cap), |ids|);
      AscendingIsDistinct(ids);
      DistinctMeans(ids);
      forall h, id | 0 <= h < |handles| && id in ids ensures id !in handles[h].ids {
        HeldIdsHaveMembers(handles, id);
      }
      StablePlansFit(plan, rankings, ScoresOf(ids, sim), handles, ids, cap);
      ghost var before := handles;
      placed, invalid := ApplyAssignments(PlannedEntries(plan, ids), Elements(ids), cap);
      PlansAreAdmitted(plan, before, ids, cap);
      RepliesAreContained(before, PlannedEntries(plan, ids), |plan|, Elements(ids), cap);
      forall h | 0 <= h < |handles| ensures Distinct(handles[h].ids) {
        assert HandleGrew(before[h], handles[h], placed, cap);
      }
      forall id | id in placed ensures Held(handles, id) {
        PlacedIdsAreHeld(before, PlannedEntries(plan, ids), |plan|, Elements(ids), cap, id);
      }
    }

    /** `handles[:] = deduplicated`. */
    method Deduplicate()
      modifies this
      ensures handles == Deduplicated(old(handles))
    {
      var deduplicated := [];
      for i := 0 to |handles|
        invariant handles == old(handles)
        invariant deduplicated == Deduplicated(handles[..i])
      {
        assert handles[..i + 1][..i] == handles[..i];
        if !Listed(handles[..i], handles[i]) { deduplicated := deduplicated + [handles[i]]; }
      }
      assert handles[..|handles|] == handles;
      handles := deduplicated;
    }

    /** `_enforce_organization_bounds`; `None` is the `ValueError` on a bound below one. */
    method EnforceBounds(known: seq<Id>, cap: int, limit: int) returns (r: Option<Report>)
      requires Ready(handles, known)
      modifies this
      ensures r.None? <==> cap < 1 || limit < 1
      ensures r.None? ==> handles == old(handles)
      ensures r.Some? ==> handles == Enforced(old(handles), known, cap, limit)
      ensures r.Some? ==> r.value == ReportOf(old(handles), known, cap, limit)
      ensures r.Some? ==> IsEnforced(old(handles), handles, known, cap, limit, r.value)
    {
      if cap < 1 || limit < 1 { return None; }
      DeduplicatedIsReady(handles, known);
      var sourceCount := |handles|;
      Deduplicate();
      var overfull, overmembered := |Overfull(handles, known, cap)|, |Overmembered(handles, known, limit)|;
      var tally := BoundAll(handles, known, cap, limit);
      assert Trims(handles, known, cap, limit)[..|handles|] == Trims(handles, known, cap, limit);
      r := Some(Report(sourceCount - |handles|, overfull, overmembered, tally.membership, tally.capacity, tally.dropped,
                       |handles| - |tally.bounded|));
      handles := tally.bounded;
      EnforcementMeans(old(handles), known, cap, limit);
    }

    /** `sorted(set(known) - assigned_ids)`: the known ids no handle holds. */
    method Unassigned(known: seq<Id>) returns (ids: seq<Id>)
      ensures Ascending(ids)
      ensures forall id :: id in ids <==> id in known && Memberships(handles, id) == 0
    {
      var held: set<Id> := {};
      for h := 0 to |handles|
        invariant forall id :: id in held <==> exists g :: 0 <= g < h && id in handles[g].ids
      {
        held := held + Elements(handles[h].ids);
      }
      ids := Sorted(Elements(known) - held);
      forall id ensures id in ids <==> id in known && Memberships(handles, id) == 0 {
        assert id in ids <==> id in Elements(ids);
        HeldIdsHaveMembers(handles, id);
      }
    }

    /** `_complete_singleton_handles`: one handle for each distinct unassigned id that is known, in string order. */
    method CompleteSingletons(known: seq<Id>, texts: Id -> string, unassigned: seq<Id>) returns (completed: seq<Id>)
      modifies this
      ensures Ascending(completed) && Elements(completed) == Elements(unassigned) * Elements(known)
      ensures handles == old(handles) + Singletons(completed, texts)
      ensures forall i :: 0 <= i < |completed| ==>
        handles[|old(handles)| + i]
          == Handle("Unclustered source item " + completed[i], texts(completed[i]), [completed[i]])
    {
      completed := [];
      var residual := Sorted(Elements(unassigned));
      for k := 0 to |residual|
        invariant Ascending(completed)
        invariant forall id :: id in completed <==> id in residual[..k] && id in known
        invariant handles == old(handles) + Singletons(completed, texts)
      {
        var id := residual[k];
        assert residual[..k + 1] == residual[..k] + [id];
        forall x | x in completed ensures Less(x, id) {
          var j :| 0 <= j < k && residual[j] == x;
        }
        if id in known {
          handles := handles + [Singleton(id, texts(id))];
          completed := completed + [id];
        }
      }
      assert residual[..|residual|] == residual;
      forall id ensures id in Elements(completed) <==> id in Elements(unassigned) && id in known {
        assert id in residual <==> id in Elements(residual);
      }
    }

    /** The end of the pipeline: enforce the bounds, then cover every id left over. */
    method Finish(known: seq<Id>, texts: Id -> string, cap: int, limit: int) returns (completed: seq<Id>)
      requires Ready(handles, known) && cap >= 1 && limit >= 1
      modifies this
      ensures handles == Enforced(old(handles), known, cap, limit) + Singletons(completed, texts)
      ensures Ascending(completed)
      ensures forall id :: id in completed <==>
        id in known && Memberships(Enforced(old(handles), known, cap, limit), id) == 0
      ensures WellOrganized(handles, known, cap, limit)
    {
      ghost var before := handles;
      var report := EnforceBounds(known, cap, limit);
      var unassigned := Unassigned(known);
      completed := CompleteSingletons(known, texts, unassigned);
      forall id ensures id in completed <==> id in unassigned {
        assert id in completed <==> id in Elements(completed);
        assert id in unassigned <==> id in Elements(unassigned);
      }
      AscendingIsDistinct(completed);
      CompletionOrganizes(before, known, cap, limit, completed, texts);
    }

    /** The embedding pass and the end of the pipeline, in this order and with one cap: no placed id is lost. */
    method AssignAndFinish(known: seq<Id>, sim: (Id, nat) -> real, texts: Id -> string, cap: int, limit: int)
      returns (ids: seq<Id>, plan: seq<CapacityPlanner.Assignment>, placed: set<Id>, completed: seq<Id>,
               ghost rankings: seq<CapacityPlanner.Confidence>, ghost filled: seq<Handle>)
      requires Ready(handles, known) && cap >= 1 && limit >= 1
      modifies this
      ensures Ascending(ids) && Elements(ids) == UnassignedIds(old(handles), known)
      ensures CapacityPlanner.IsRanking(rankings, ScoresOf(ids, sim), Room(old(handles), cap), |ids|)
      ensures CapacityPlanner.IsStablePlan(plan, rankings, ScoresOf(ids, sim), Room(old(handles), cap))
      ensures Fits(plan, old(handles), ids, cap) && Ready(filled, known)
      ensures PlanApplied(Outcome(filled, placed, {}), plan, old(handles), ids, |plan|)
      ensures handles == Enforced(filled, known, cap, limit) + Singletons(completed, texts)
      ensures forall id :: id in placed ==>
        id in ids && id !in completed && Memberships(Enforced(filled, known, cap, limit), id) > 0
      ensures |placed| == var room := CapacityPlanner.Sum(Room(old(handles), cap)); if |ids| < room then |ids| else room
      ensures WellOrganized(handles, known, cap, limit)
    {
      ghost var before := handles;
      var invalid;
      ids, rankings, plan, placed, invalid := AssignByCapacity(known, sim, cap);
      filled := handles;
      PlacedIdsStay(Outcome(filled, placed, invalid), plan, before, ids, known, cap, limit);
      assert Elements(ids) == UnassignedIds(before, known);
      completed := Finish(known, texts, cap, limit);
    }
  }
}
