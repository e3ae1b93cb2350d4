/** Applying repair assignments to a list of handles: what is admitted, what is reported, what stays within bounds. */
module Assignments {
  import opened Lists
  import opened OrganizerBounds
  import CapacityPlanner

  /** A handle number as it arrives: an integer, or anything else. */
  datatype Number = Whole(n: int) | NotANumber

  /** One assignment of a reply; `numbers` holds its `handle_numbers`, or its single `handle_number`. */
  datatype Entry = Malformed | Entry(id: Id, numbers: seq<Number>)

  datatype Issue = UnexpectedId(id: Id) | BadNumbers(id: Id) | FullHandle(id: Id, number: int)

  datatype Outcome = Outcome(handles: seq<Handle>, placed: set<Id>, invalid: set<Issue>)

  predicate Usable(numbers: seq<Number>, handles: nat) {
    numbers != [] && forall i :: 0 <= i < |numbers| ==> numbers[i].Whole? && 1 <= numbers[i].n <= handles
  }

  /** Put `id` in handle `number`, unless it is full and does not hold the id yet. */
  function Offered(o: Outcome, id: Id, number: int, cap: nat): Outcome
    requires 1 <= number <= |o.handles|
  {
    var handle := o.handles[number - 1];
    if id in handle.ids then o.(placed := o.placed + {id})
    else if |handle.ids| >= cap then o.(invalid := o.invalid + {FullHandle(id, number)})
    else o.(handles := o.handles[number - 1 := handle.(ids := handle.ids + [id])], placed := o.placed + {id})
  }

  function OfferedAll(o: Outcome, id: Id, numbers: seq<Number>, k: nat, cap: nat): (r: Outcome)
    requires Usable(numbers, |o.handles|) && k <= |numbers|
    ensures |r.handles| == |o.handles|
  {
    if k == 0 then o else Offered(OfferedAll(o, id, numbers, k - 1, cap), id, numbers[k - 1].n, cap)
  }

  function AppliedEntry(o: Outcome, entry: Entry, expected: set<Id>, cap: nat): (r: Outcome)
    ensures |r.handles| == |o.handles|
  {
    if entry.Malformed? then o
    else if entry.id !in expected then o.(invalid := o.invalid + {UnexpectedId(entry.id)})
    else
      var numbers := FirstOccurrences(entry.numbers);
      if !Usable(numbers, |o.handles|) then o.(invalid := o.invalid + {BadNumbers(entry.id)})
      else OfferedAll(o, entry.id, numbers, |numbers|, cap)
  }

  /** The outcome of the first `k` entries. */
  function Applied(handles: seq<Handle>, entries: seq<Entry>, k: nat, expected: set<Id>, cap: nat): (r: Outcome)
    requires k <= |entries|
    ensures |r.handles| == |handles|
  {
    if k == 0 then Outcome(handles, {}, {})
    else AppliedEntry(Applied(handles, entries, k - 1, expected, cap), entries[k - 1], expected, cap)
  }

  // ---------------------------------------------------------------- for any entry

  /** Handle `h` is named by the numbers, does not hold the id, and is full. */
  predicate IsRefused(o: Outcome, id: Id, numbers: seq<Number>, cap: nat, h: nat)
    requires h < |o.handles|
  {
    Whole(h + 1) in numbers && id !in o.handles[h].ids && |o.handles[h].ids| >= cap
  }

  /** Handle `h` is named by the numbers, and holds the id or has room for it. */
  predicate IsGranted(o: Outcome, id: Id, numbers: seq<Number>, cap: nat, h: nat)
    requires h < |o.handles|
  {
    Whole(h + 1) in numbers && (id in o.handles[h].ids || |o.handles[h].ids| < cap)
  }

  ghost predicate HandlesAre(o: Outcome, r: Outcome, id: Id, numbers: seq<Number>, cap: nat) {
    |r.handles| == |o.handles| && forall h: nat :: h < |o.handles| ==>
      r.handles[h] == if IsGranted(o, id, numbers, cap, h) && id !in o.handles[h].ids
                      then o.handles[h].(ids := o.handles[h].ids + [id]) else o.handles[h]
  }

  ghost predicate IssuesAre(o: Outcome, r: Outcome, id: Id, numbers: seq<Number>, cap: nat) {
    forall issue :: issue in r.invalid <==> issue in o.invalid || IsRefusal(o, id, numbers, cap, issue)
  }

  /** The report that a named handle is full. */
  predicate IsRefusal(o: Outcome, id: Id, numbers: seq<Number>, cap: nat, issue: Issue) {
    issue.FullHandle? && issue.id == id && 1 <= issue.number <= |o.handles| && IsRefused(o, id, numbers, cap, issue.number - 1)
  }

  ghost predicate PlacedAre(o: Outcome, r: Outcome, id: Id, numbers: seq<Number>, cap: nat) {
    r.placed == o.placed + if exists h: nat :: h < |o.handles| && IsGranted(o, id, numbers, cap, h) then {id} else {}
  }

  /** Every named handle with room ends with the id, every full one is reported, and nothing else changes. */
  ghost predicate AreOffered(o: Outcome, r: Outcome, id: Id, numbers: seq<Number>, cap: nat) {
    HandlesAre(o, r, id, numbers, cap) && IssuesAre(o, r, id, numbers, cap) && PlacedAre(o, r, id, numbers, cap)
  }

  lemma OneMoreHandle(o: Outcome, r: Outcome, id: Id, numbers: seq<Number>, number: int, cap: nat)
    requires HandlesAre(o, r, id, numbers, cap) && 1 <= number <= |o.handles| && Whole(number) !in numbers
    ensures HandlesAre(o, Offered(r, id, number, cap), id, numbers + [Whole(number)], cap)
  {
    assert forall n :: n in numbers + [Whole(number)] <==> n in numbers || n == Whole(number);
  }

  lemma OneMoreIssue(o: Outcome, r: Outcome, id: Id, numbers: seq<Number>, number: int, cap: nat)
    requires HandlesAre(o, r, id, numbers, cap) && IssuesAre(o, r, id, numbers, cap)
    requires 1 <= number <= |o.handles| && Whole(number) !in numbers
    ensures IssuesAre(o, Offered(r, id, number, cap), id, numbers + [Whole(number)], cap)
  {
    assert forall n :: n in numbers + [Whole(number)] <==> n in numbers || n == Whole(number);
    assert r.handles[number - 1] == o.handles[number - 1];
  }

  lemma OneMorePlace(o: Outcome, r: Outcome, id: Id, numbers: seq<Number>, number: int, cap: nat)
    requires HandlesAre(o, r, id, numbers, cap) && PlacedAre(o, r, id, numbers, cap)
    requires 1 <= number <= |o.handles| && Whole(number) !in numbers
    ensures PlacedAre(o, Offered(r, id, number, cap), id, numbers + [Whole(number)], cap)
  {
    assert forall n :: n in numbers + [Whole(number)] <==> n in numbers || n == Whole(number);
    assert r.handles[number - 1] == o.handles[number - 1];
    forall h: nat | h < |o.handles|
      ensures IsGranted(o, id, numbers + [Whole(number)], cap, h) <==>
        IsGranted(o, id, numbers, cap, h) || (h == number - 1 && (id in o.handles[h].ids || |o.handles[h].ids| < cap))
    {
    }
  }

  lemma {:induction false} OffersMean(o: Outcome, id: Id, numbers: seq<Number>, k: nat, cap: nat)
    requires Usable(numbers, |o.handles|) && Distinct(numbers) && k <= |numbers|
    ensures AreOffered(o, OfferedAll(o, id, numbers, k, cap), id, numbers[..k], cap)
  {
    if k > 0 {
      var r, number := OfferedAll(o, id, numbers, k - 1, cap), numbers[k - 1].n;
      OffersMean(o, id, numbers, k - 1, cap);
      DistinctMeans(numbers);
      assert numbers[..k] == numbers[..k - 1] + [Whole(number)];
      OneMoreHandle(o, r, id, numbers[..k - 1], number, cap);
      OneMoreIssue(o, r, id, numbers[..k - 1], number, cap);
      OneMorePlace(o, r, id, numbers[..k - 1], number, cap);
    }
  }

  /** Numbers that cannot be used: none at all, or one that is no handle's number. */
  predicate AreBad(numbers: seq<Number>, handles: nat) {
    numbers == [] || exists i :: 0 <= i < |numbers| && (numbers[i].NotANumber? || numbers[i].n < 1 || numbers[i].n > handles)
  }

  lemma SameNumbers(o: Outcome, r: Outcome, id: Id, a: seq<Number>, b: seq<Number>, cap: nat)
    requires (forall n :: n in a <==> n in b) && AreOffered(o, r, id, a, cap)
    ensures AreOffered(o, r, id, b, cap)
  {
  }

  /** What an entry does: unexpected ids and bad numbers are reported, and any other entry is offered in full. */
  lemma EntryMeans(o: Outcome, entry: Entry, expected: set<Id>, cap: nat)
    ensures var r := AppliedEntry(o, entry, expected, cap);
      match entry
      case Malformed => r == o
      case Entry(id, numbers) =>
        if id !in expected then r == o.(invalid := o.invalid + {UnexpectedId(id)})
        else if AreBad(numbers, |o.handles|) then r == o.(invalid := o.invalid + {BadNumbers(id)})
        else AreOffered(o, r, id, numbers, cap)
  {
    if entry.Entry? && entry.id in expected {
      var numbers := FirstOccurrences(entry.numbers);
      UsableIsNotBad(entry.numbers, |o.handles|);
      if !AreBad(entry.numbers, |o.handles|) {
        OffersMean(o, entry.id, numbers, |numbers|, cap);
        assert numbers[..|numbers|] == numbers;
        SameNumbers(o, OfferedAll(o, entry.id, numbers, |numbers|, cap), entry.id, numbers, entry.numbers, cap);
      }
    }
  }

  lemma UsableIsNotBad(numbers: seq<Number>, handles: nat)
    ensures Usable(FirstOccurrences(numbers), handles) <==> !AreBad(numbers, handles)
  {
    var first := FirstOccurrences(numbers);
    assert forall i :: 0 <= i < |first| ==> first[i] in numbers;
    assert forall i :: 0 <= i < |numbers| ==> numbers[i] in first;
  }

  // ---------------------------------------------------------------- for any reply at all

  /** A handle only grows at its end, by placed ids, up to `cap`, and never repeats an id. */
  ghost predicate HandleGrew(before: Handle, after: Handle, placed: set<Id>, cap: nat) {
    && before.ids <= after.ids
    && (|after.ids| <= |before.ids| || |after.ids| <= cap)
    && (forall id :: id in after.ids ==> id in before.ids || id in placed)
    && (Distinct(before.ids) ==> Distinct(after.ids))
  }

  ghost predicate Grew(before: seq<Handle>, o: Outcome, cap: nat) {
    |o.handles| == |before| && forall h :: 0 <= h < |before| ==> HandleGrew(before[h], o.handles[h], o.placed, cap)
  }

  ghost predicate Held(handles: seq<Handle>, id: Id) {
    exists h :: 0 <= h < |handles| && id in handles[h].ids
  }

  lemma HandleGrowsWith(before: Handle, after: Handle, placed: set<Id>, id: Id, cap: nat)
    requires HandleGrew(before, after, placed, cap)
    ensures HandleGrew(before, after, placed + {id}, cap)
    ensures id !in after.ids && |after.ids| < cap ==>
      HandleGrew(before, after.(ids := after.ids + [id]), placed + {id}, cap)
  {
    if id !in after.ids && Distinct(after.ids) { DistinctAppend(after.ids, id); }
  }

  lemma OfferGrows(before: seq<Handle>, o: Outcome, id: Id, number: int, cap: nat)
    requires 1 <= number <= |before| && Grew(before, o, cap)
    ensures Grew(before, Offered(o, id, number, cap), cap)
  {
    forall h | 0 <= h < |before|
      ensures HandleGrew(before[h], Offered(o, id, number, cap).handles[h], Offered(o, id, number, cap).placed, cap)
    {
      HandleGrowsWith(before[h], o.handles[h], o.placed, id, cap);
    }
  }

  lemma OfferKeepsHeld(o: Outcome, id: Id, number: int, cap: nat, x: Id)
    requires 1 <= number <= |o.handles|
    ensures Held(o.handles, x) ==> Held(Offered(o, id, number, cap).handles, x)
    ensures id in Offered(o, id, number, cap).placed - o.placed ==> Held(Offered(o, id, number, cap).handles, id)
  {
    var after := Offered(o, id, number, cap);
    if Held(o.handles, x) {
      var h :| 0 <= h < |o.handles| && x in o.handles[h].ids;
      assert x in after.handles[h].ids;
    }
    if id in after.placed - o.placed { assert id in after.handles[number - 1].ids; }
  }

  lemma {:induction false} OffersGrow(before: seq<Handle>, o: Outcome, id: Id, numbers: seq<Number>, k: nat, cap: nat)
    requires Usable(numbers, |o.handles|) && k <= |numbers| && Grew(before, o, cap)
    ensures Grew(before, OfferedAll(o, id, numbers, k, cap), cap)
  {
    if k > 0 {
      var so := OfferedAll(o, id, numbers, k - 1, cap);
      assert numbers[k - 1].Whole? && 1 <= numbers[k - 1].n <= |o.handles|;
      OffersGrow(before, o, id, numbers, k - 1, cap);
      OfferGrows(before, so, id, numbers[k - 1].n, cap);
    }
  }

  lemma {:induction false} OffersPlace(o: Outcome, id: Id, numbers: seq<Number>, k: nat, cap: nat, x: Id)
    requires Usable(numbers, |o.handles|) && k <= |numbers|
    requires x in o.placed ==> Held(o.handles, x)
    ensures OfferedAll(o, id, numbers, k, cap).placed <= o.placed + {id}
    ensures x in OfferedAll(o, id, numbers, k, cap).placed ==> Held(OfferedAll(o, id, numbers, k, cap).handles, x)
  {
    if k > 0 {
      OffersPlace(o, id, numbers, k - 1, cap, x);
      OfferKeepsHeld(OfferedAll(o, id, numbers, k - 1, cap), id, numbers[k - 1].n, cap, x);
    }
  }

  /** Whatever a reply says, no handle is overfilled, its old ids stay, and nothing else is added than placed ids. */
  lemma {:induction false} RepliesAreContained(handles: seq<Handle>, entries: seq<Entry>, k: nat, expected: set<Id>, cap: nat)
    requires k <= |entries|
    ensures Grew(handles, Applied(handles, entries, k, expected, cap), cap)
  {
    if k > 0 {
      RepliesAreContained(handles, entries, k - 1, expected, cap);
      var o, entry := Applied(handles, entries, k - 1, expected, cap), entries[k - 1];
      if entry.Entry? && entry.id in expected {
        var numbers := FirstOccurrences(entry.numbers);
        if Usable(numbers, |o.handles|) { OffersGrow(handles, o, entry.id, numbers, |numbers|, cap); }
      }
    }
  }

  /** Every placed id was expected, and some handle holds it. */
  lemma {:induction false} PlacedIdsAreHeld(handles: seq<Handle>, entries: seq<Entry>, k: nat, expected: set<Id>, cap: nat, id: Id)
    requires k <= |entries| && id in Applied(handles, entries, k, expected, cap).placed
    ensures id in expected && Held(Applied(handles, entries, k, expected, cap).handles, id)
  {
    if k > 0 {
      var o, entry := Applied(handles, entries, k - 1, expected, cap), entries[k - 1];
      if id in o.placed { PlacedIdsAreHeld(handles, entries, k - 1, expected, cap, id); }
      if entry.Entry? && entry.id in expected {
        var numbers := FirstOccurrences(entry.numbers);
        if Usable(numbers, |o.handles|) { OffersPlace(o, entry.id, numbers, |numbers|, cap, id); }
      }
    }
  }

  // ---------------------------------------------------------------- for a capacity plan

  /** The room in each handle: `max(0, cap - len(ids))`. */
  function Room(handles: seq<Handle>, cap: nat): (free: seq<nat>)
    ensures |free| == |handles|
    ensures forall h :: 0 <= h < |handles| ==>
      if |handles[h].ids| >= cap then free[h] == 0 else |handles[h].ids| + free[h] == cap
  {
    seq(|handles|, h requires 0 <= h < |handles| => if |handles[h].ids| < cap then cap - |handles[h].ids| else 0)
  }

  /** The assignments the planner emits: an item's id and its 1-based handle number. */
  function PlannedEntries(plan: seq<CapacityPlanner.Assignment>, ids: seq<Id>): (entries: seq<Entry>)
    requires forall p :: 0 <= p < |plan| ==> plan[p].item < |ids|
    ensures |entries| == |plan|
  {
    seq(|plan|, p requires 0 <= p < |plan| => Entry(ids[plan[p].item], [Whole(plan[p].handle + 1)]))
  }

  ghost predicate Fits(plan: seq<CapacityPlanner.Assignment>, handles: seq<Handle>, ids: seq<Id>, cap: nat) {
    && (forall p :: 0 <= p < |plan| ==> plan[p].item < |ids| && plan[p].handle < |handles|)
    && (forall p, q :: 0 <= p < q < |plan| ==> ids[plan[p].item] != ids[plan[q].item])
    && (forall h, id :: 0 <= h < |handles| && id in ids ==> id !in handles[h].ids)
    && (forall h :: 0 <= h < |handles| ==> CapacityPlanner.Load(plan, h) <= Room(handles, cap)[h])
  }

  function PlacedIds(plan: seq<CapacityPlanner.Assignment>, ids: seq<Id>, p: nat): set<Id>
    requires p <= |plan| && forall q :: 0 <= q < |plan| ==> plan[q].item < |ids|
  {
    if p == 0 then {} else PlacedIds(plan, ids, p - 1) + {ids[plan[p - 1].item]}
  }

  lemma {:induction false} PlacedEarlier(plan: seq<CapacityPlanner.Assignment>, ids: seq<Id>, p: nat, id: Id)
    requires p <= |plan| && forall q :: 0 <= q < |plan| ==> plan[q].item < |ids|
    requires id in PlacedIds(plan, ids, p)
    ensures exists q :: 0 <= q < p && id == ids[plan[q].item]
  {
    if id != ids[plan[p - 1].item] { PlacedEarlier(plan, ids, p - 1, id); }
  }

  /** The ids that the first `p` planned assignments give handle `h`, in plan order. */
  function Received(plan: seq<CapacityPlanner.Assignment>, ids: seq<Id>, p: nat, h: nat): seq<Id>
    requires p <= |plan| && forall q :: 0 <= q < |plan| ==> plan[q].item < |ids|
  {
    if p == 0 then []
    else Received(plan, ids, p - 1, h) + if plan[p - 1].handle == h then [ids[plan[p - 1].item]] else []
  }

  lemma {:induction false} ReceivedIsLoad(plan: seq<CapacityPlanner.Assignment>, ids: seq<Id>, p: nat, h: nat)
    requires p <= |plan| && forall q :: 0 <= q < |plan| ==> plan[q].item < |ids|
    ensures |Received(plan, ids, p, h)| == CapacityPlanner.Load(plan[..p], h)
  {
    if p > 0 {
      ReceivedIsLoad(plan, ids, p - 1, h);
      LoadStep(plan, p - 1, h);
    }
  }

  /** Every planned entry places an id of its own. */
  lemma {:induction false} PlacedSize(plan: seq<CapacityPlanner.Assignment>, ids: seq<Id>, handles: seq<Handle>,
                                      cap: nat, p: nat)
    requires Fits(plan, handles, ids, cap) && p <= |plan|
    ensures |PlacedIds(plan, ids, p)| == p
  {
    for q := 0 to p
      invariant |PlacedIds(plan, ids, q)| == q
    {
      var id := ids[plan[q].item];
      if id in PlacedIds(plan, ids, q) { PlacedEarlier(plan, ids, q, id); }
    }
  }

  /** The handle ends with the ids planned for it, in plan order. */
  ghost predicate HandleReceived(before: Handle, after: Handle, plan: seq<CapacityPlanner.Assignment>,
                                 ids: seq<Id>, p: nat, h: nat)
    requires p <= |plan| && forall q :: 0 <= q < |plan| ==> plan[q].item < |ids|
  {
    after == before.(ids := before.ids + Received(plan, ids, p, h))
  }

  /** After `p` planned entries nothing was refused, and each handle grew by exactly the ids planned for it. */
  ghost predicate PlanApplied(o: Outcome, plan: seq<CapacityPlanner.Assignment>, handles: seq<Handle>, ids: seq<Id>, p: nat)
    requires p <= |plan| && forall q :: 0 <= q < |plan| ==> plan[q].item < |ids|
  {
    && o.invalid == {} && o.placed == PlacedIds(plan, ids, p) && |o.handles| == |handles|
    && (forall h :: 0 <= h < |handles| ==> HandleReceived(handles[h], o.handles[h], plan, ids, p, h))
  }

  lemma NotHeldYet(o: Outcome, plan: seq<CapacityPlanner.Assignment>, handles: seq<Handle>, ids: seq<Id>, cap: nat, p: nat)
    requires Fits(plan, handles, ids, cap) && p < |plan| && PlanApplied(o, plan, handles, ids, p) && Grew(handles, o, cap)
    ensures ids[plan[p].item] !in o.handles[plan[p].handle].ids
  {
    var id, h := ids[plan[p].item], plan[p].handle;
    assert id in ids && HandleGrew(handles[h], o.handles[h], o.placed, cap);
    if id in PlacedIds(plan, ids, p) { PlacedEarlier(plan, ids, p, id); }
  }

  lemma LoadStep(plan: seq<CapacityPlanner.Assignment>, p: nat, h: nat)
    requires p < |plan|
    ensures CapacityPlanner.Load(plan[..p + 1], h)
         == CapacityPlanner.Load(plan[..p], h) + if plan[p].handle == h then 1 else 0
    ensures plan[p].handle == h ==> CapacityPlanner.Load(plan[..p], h) < CapacityPlanner.Load(plan, h)
  {
    assert plan[..p + 1][..p] == plan[..p];
    CapacityPlanner.LoadGrows(plan, p + 1, h);
  }

  lemma OneNumber(number: Number)
    ensures FirstOccurrences([number]) == [number]
  {
    assert [number][..0] == [] && FirstOccurrences<Number>([]) == [];
  }

  lemma OneOffer(o: Outcome, entry: Entry, id: Id, number: int, expected: set<Id>, cap: nat)
    requires entry == Entry(id, [Whole(number)]) && id in expected && 1 <= number <= |o.handles|
    ensures AppliedEntry(o, entry, expected, cap) == Offered(o, id, number, cap)
  {
    OneNumber(Whole(number));
    var numbers := [Whole(number)];
    assert OfferedAll(o, id, numbers, 1, cap) == Offered(OfferedAll(o, id, numbers, 0, cap), id, number, cap);
  }

  lemma HasRoom(o: Outcome, plan: seq<CapacityPlanner.Assignment>, handles: seq<Handle>, ids: seq<Id>, cap: nat, p: nat)
    requires Fits(plan, handles, ids, cap) && p < |plan| && PlanApplied(o, plan, handles, ids, p)
    ensures |o.handles[plan[p].handle].ids| < cap
  {
    var h := plan[p].handle;
    assert HandleReceived(handles[h], o.handles[h], plan, ids, p, h);
    ReceivedIsLoad(plan, ids, p, h);
    LoadStep(plan, p, h);
  }

  /** After an applied plan, every handle that holds a planned id is within the cap. */
  lemma PlannedHandlesFit(o: Outcome, plan: seq<CapacityPlanner.Assignment>, handles: seq<Handle>, ids: seq<Id>,
                          cap: nat, h: nat, id: Id)
    requires Fits(plan, handles, ids, cap) && PlanApplied(o, plan, handles, ids, |plan|)
    requires h < |handles| && id in ids && id in o.handles[h].ids
    ensures |o.handles[h].ids| <= cap
  {
    assert HandleReceived(handles[h], o.handles[h], plan, ids, |plan|, h);
    ReceivedIsLoad(plan, ids, |plan|, h);
    assert plan[..|plan|] == plan;
  }

  lemma NothingPlanned(plan: seq<CapacityPlanner.Assignment>, handles: seq<Handle>, ids: seq<Id>)
    requires forall q :: 0 <= q < |plan| ==> plan[q].item < |ids|
    ensures PlanApplied(Outcome(handles, {}, {}), plan, handles, ids, 0)
  {
    forall h | 0 <= h < |handles| ensures HandleReceived(handles[h], handles[h], plan, ids, 0, h) {
      assert handles[h].ids + [] == handles[h].ids;
    }
  }

  lemma PlanStep(o: Outcome, plan: seq<CapacityPlanner.Assignment>, handles: seq<Handle>, ids: seq<Id>, cap: nat, p: nat)
    requires Fits(plan, handles, ids, cap) && p < |plan| && PlanApplied(o, plan, handles, ids, p) && Grew(handles, o, cap)
    ensures PlanApplied(Offered(o, ids[plan[p].item], plan[p].handle + 1, cap), plan, handles, ids, p + 1)
  {
    var id, h := ids[plan[p].item], plan[p].handle;
    NotHeldYet(o, plan, handles, ids, cap, p);
    HasRoom(o, plan, handles, ids, cap, p);
    var after := Offered(o, id, h + 1, cap);
    forall g | 0 <= g < |handles| ensures HandleReceived(handles[g], after.handles[g], plan, ids, p + 1, g) {
      assert HandleReceived(handles[g], o.handles[g], plan, ids, p, g);
      assert handles[g].ids + (Received(plan, ids, p, g) + [id]) == (handles[g].ids + Received(plan, ids, p, g)) + [id];
    }
  }

  lemma EntryStep(o: Outcome, entry: Entry, plan: seq<CapacityPlanner.Assignment>, handles: seq<Handle>, ids: seq<Id>,
                  cap: nat, p: nat)
    requires Fits(plan, handles, ids, cap) && p < |plan| && PlanApplied(o, plan, handles, ids, p) && Grew(handles, o, cap)
    requires entry == Entry(ids[plan[p].item], [Whole(plan[p].handle + 1)])
    ensures PlanApplied(AppliedEntry(o, entry, Elements(ids), cap), plan, handles, ids, p + 1)
  {
    var id := ids[plan[p].item];
    assert id in ids;
    OneOffer(o, entry, id, plan[p].handle + 1, Elements(ids), cap);
    PlanStep(o, plan, handles, ids, cap, p);
  }

  lemma NextIsAdmitted(plan: seq<CapacityPlanner.Assignment>, handles: seq<Handle>, ids: seq<Id>, cap: nat, p: nat, o: Outcome)
    requires Fits(plan, handles, ids, cap) && p < |plan| && PlanApplied(o, plan, handles, ids, p)
    requires o == Applied(handles, PlannedEntries(plan, ids), p, Elements(ids), cap)
    ensures PlanApplied(AppliedEntry(o, PlannedEntries(plan, ids)[p], Elements(ids), cap), plan, handles, ids, p + 1)
  {
    RepliesAreContained(handles, PlannedEntries(plan, ids), p, Elements(ids), cap);
    EntryStep(o, PlannedEntries(plan, ids)[p], plan, handles, ids, cap, p);
  }

  /** Every planned assignment is admitted: nothing is reported invalid, and each id reaches its handle. */
  lemma PlansAreAdmitted(plan: seq<CapacityPlanner.Assignment>, handles: seq<Handle>, ids: seq<Id>, cap: nat)
    requires Fits(plan, handles, ids, cap)
    ensures PlanApplied(Applied(handles, PlannedEntries(plan, ids), |plan|, Elements(ids), cap), plan, handles, ids, |plan|)
  {
    var entries := PlannedEntries(plan, ids);
    var o := Outcome(handles, {}, {});
    NothingPlanned(plan, handles, ids);
    for p := 0 to |plan|
      invariant o == Applied(handles, entries, p, Elements(ids), cap) && PlanApplied(o, plan, handles, ids, p)
    {
      NextIsAdmitted(plan, handles, ids, cap, p, o);
      o := AppliedEntry(o, entries[p], Elements(ids), cap);
    }
  }

  /** A stable plan for distinct ids that no handle holds yet can be applied in full. */
  lemma StablePlansFit(plan: seq<CapacityPlanner.Assignment>, rankings: seq<CapacityPlanner.Confidence>,
                       sim: CapacityPlanner.Similarity, handles: seq<Handle>, ids: seq<Id>, cap: nat)
    requires CapacityPlanner.IsRanking(rankings, sim, Room(handles, cap), |ids|)
    requires CapacityPlanner.IsStablePlan(plan, rankings, sim, Room(handles, cap))
    requires forall i, j :: 0 <= i < j < |ids| ==> ids[i] != ids[j]
    requires forall h, id :: 0 <= h < |handles| && id in ids ==> id !in handles[h].ids
    ensures Fits(plan, handles, ids, cap)
  {
    forall p, q | 0 <= p < q < |plan| ensures ids[plan[p].item] != ids[plan[q].item] {
      CapacityPlanner.RankedItemsDiffer(rankings, sim, Room(handles, cap), |ids|, p, q);
      assert plan[p].item < plan[q].item || plan[q].item < plan[p].item;
    }
  }
}
