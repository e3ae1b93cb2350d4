/** What bounds enforcement makes of a list of handles, as functions, and what it guarantees.

    The known evidence is the list of its ids in source order. Handle positions are read in the list left
    after duplicate handles are removed.
*/
module OrganizerBounds {
  import opened Lists
  import EvenSpread

  type Id = string
  datatype Handle = Handle(title: string, summary: string, ids: seq<Id>)

  /** Each handle lists an id once, as handle normalisation ensures. */
  ghost predicate UniqueIds(handles: seq<Handle>) {
    forall h :: 0 <= h < |handles| ==> Distinct(handles[h].ids)
  }

  // ---------------------------------------------------------------- duplicate handles

  predicate SameIdentity(a: Handle, b: Handle) {
    a.title == b.title && multiset(a.ids) == multiset(b.ids)
  }

  predicate Listed(handles: seq<Handle>, handle: Handle) {
    exists i :: 0 <= i < |handles| && SameIdentity(handles[i], handle)
  }

  /** The first handle of every identity. */
  function Deduplicated(handles: seq<Handle>): (r: seq<Handle>)
    ensures |r| <= |handles|
    ensures forall x :: x in r ==> x in handles
  {
    if handles == [] then []
    else
      var n := |handles| - 1;
      if Listed(handles[..n], handles[n]) then Deduplicated(handles[..n])
      else Deduplicated(handles[..n]) + [handles[n]]
  }

  // ---------------------------------------------------------------- permitted owners

  function Size(handle: Handle, known: seq<Id>): nat {
    |Filter(handle.ids, Elements(known))|
  }

  function Owners(handles: seq<Handle>, id: Id): set<nat> {
    set h: nat | h < |handles| && id in handles[h].ids
  }

  /** The order owners are ranked in: by number of known ids, then by position. */
  predicate Smaller(handles: seq<Handle>, known: seq<Id>, g: nat, h: nat)
    requires g < |handles| && h < |handles|
  {
    var a, b := Size(handles[g], known), Size(handles[h], known);
    a < b || (a == b && g < h)
  }

  function Ahead(handles: seq<Handle>, known: seq<Id>, id: Id, h: nat): set<nat>
    requires h < |handles|
  {
    set g | g in Owners(handles, id) && Smaller(handles, known, g, h)
  }

  /** `h` is among the first `limit` owners of `id`. */
  predicate IsPermitted(handles: seq<Handle>, known: seq<Id>, limit: nat, id: Id, h: nat)
    requires h < |handles|
  {
    |Ahead(handles, known, id, h)| < limit
  }

  function PermittedIds(handles: seq<Handle>, known: seq<Id>, limit: nat, h: nat): set<Id>
    requires h < |handles|
  {
    set id | id in handles[h].ids && id in known && IsPermitted(handles, known, limit, id, h)
  }

  lemma {:induction false} GreatestOwner(handles: seq<Handle>, known: seq<Id>, owners: set<nat>) returns (top: nat)
    requires owners != {} && forall h :: h in owners ==> h < |handles|
    ensures top in owners
    ensures forall h :: h in owners && h != top ==> Smaller(handles, known, h, top)
  {
    var one: nat :| one in owners;
    top := one;
    if owners != {one} {
      var next := GreatestOwner(handles, known, owners - {one});
      if Smaller(handles, known, one, next) { top := next; }
      forall h | h in owners && h != top ensures Smaller(handles, known, h, top) {
        assert h in owners - {one} || h == one;
      }
    }
  }

  lemma {:induction false} LeastOwner(handles: seq<Handle>, known: seq<Id>, owners: set<nat>) returns (least: nat)
    requires owners != {} && forall h :: h in owners ==> h < |handles|
    ensures least in owners
    ensures forall h :: h in owners ==> !Smaller(handles, known, h, least)
  {
    var one: nat :| one in owners;
    least := one;
    if owners != {one} {
      var next := LeastOwner(handles, known, owners - {one});
      if Smaller(handles, known, next, one) { least := next; }
      forall h | h in owners ensures !Smaller(handles, known, h, least) {
        assert h in owners - {one} || h == one;
      }
    }
  }

  function PermittedOwners(handles: seq<Handle>, known: seq<Id>, limit: nat, id: Id): set<nat> {
    set h | h in Owners(handles, id) && IsPermitted(handles, known, limit, id, h)
  }

  lemma PermittedOwnersBound(handles: seq<Handle>, known: seq<Id>, limit: nat, id: Id)
    ensures |PermittedOwners(handles, known, limit, id)| <= limit
  {
    var permitted := PermittedOwners(handles, known, limit, id);
    if permitted != {} {
      var top := GreatestOwner(handles, known, permitted);
      SubsetSize(permitted - {top}, Ahead(handles, known, id, top));
    }
  }

  lemma SomeOwnerIsPermitted(handles: seq<Handle>, known: seq<Id>, limit: nat, id: Id) returns (h: nat)
    requires limit >= 1 && Owners(handles, id) != {}
    ensures h in PermittedOwners(handles, known, limit, id)
  {
    h := LeastOwner(handles, known, Owners(handles, id));
    assert Ahead(handles, known, id, h) == {};
  }

  // ---------------------------------------------------------------- one handle

  function Valid(handles: seq<Handle>, known: seq<Id>, limit: nat, h: nat): seq<Id>
    requires h < |handles|
  {
    Filter(handles[h].ids, PermittedIds(handles, known, limit, h))
  }

  function Unknown(handle: Handle, known: seq<Id>): seq<Id> {
    Filter(handle.ids, Elements(handle.ids) - Elements(known))
  }

  /** Sorting distinct known ids by source order. */
  function InSourceOrder(known: seq<Id>, ids: seq<Id>): seq<Id> {
    Filter(known, Elements(ids))
  }

  lemma SourceOrderSize(known: seq<Id>, ids: seq<Id>)
    requires Distinct(known) && Distinct(ids) && forall id :: id in ids ==> id in known
    ensures |InSourceOrder(known, ids)| == |ids|
  {
    FilterDistinct(known, Elements(ids));
    DistinctSize(InSourceOrder(known, ids));
    DistinctSize(ids);
    assert Elements(InSourceOrder(known, ids)) == Elements(ids);
  }

  /** Sort by source order and keep `cap` evenly spread ids. */
  function Trimmed(known: seq<Id>, ids: seq<Id>, cap: nat): (kept: seq<Id>)
    requires Distinct(known) && Distinct(ids) && forall id :: id in ids ==> id in known
    ensures |kept| <= cap && (|ids| <= cap ==> kept == ids)
    ensures forall id :: id in kept ==> id in ids
  {
    SourceOrderSize(known, ids);
    if |ids| <= cap then ids else EvenSpread.Keep(InSourceOrder(known, ids), cap)
  }

  lemma TrimmedIsDistinct(known: seq<Id>, ids: seq<Id>, cap: nat)
    requires Distinct(known) && Distinct(ids) && forall id :: id in ids ==> id in known
    ensures Distinct(Trimmed(known, ids, cap))
    ensures |ids| > cap ==> |Trimmed(known, ids, cap)| == cap
  {
    SourceOrderSize(known, ids);
    if |ids| > cap {
      FilterDistinct(known, Elements(ids));
      DistinctMeans(InSourceOrder(known, ids));
      EvenSpread.KeptItemsAreDistinct(InSourceOrder(known, ids), cap);
      DistinctMeans(Trimmed(known, ids, cap));
    }
  }

  ghost predicate Ready(handles: seq<Handle>, known: seq<Id>) {
    Distinct(known) && UniqueIds(handles)
  }

  function Kept(handles: seq<Handle>, known: seq<Id>, cap: nat, limit: nat, h: nat): seq<Id>
    requires h < |handles| && Ready(handles, known)
  {
    FilterDistinct(handles[h].ids, PermittedIds(handles, known, limit, h));
    Trimmed(known, Valid(handles, known, limit, h), cap)
  }

  function BoundedIds(handles: seq<Handle>, known: seq<Id>, cap: nat, limit: nat, h: nat): seq<Id>
    requires h < |handles| && Ready(handles, known)
  {
    Kept(handles, known, cap, limit, h) + Unknown(handles[h], known)
  }

  // ---------------------------------------------------------------- the whole list

  function Trims(handles: seq<Handle>, known: seq<Id>, cap: nat, limit: nat): (r: seq<Handle>)
    requires Ready(handles, known)
    ensures |r| == |handles|
  {
    seq(|handles|, h requires 0 <= h < |handles| => handles[h].(ids := BoundedIds(handles, known, cap, limit, h)))
  }

  function NonEmpty(handles: seq<Handle>): (r: seq<Handle>)
    ensures |r| <= |handles|
    ensures forall x :: x in r <==> x in handles && x.ids != []
  {
    if handles == [] then []
    else
      var n := |handles| - 1;
      assert handles == handles[..n] + [handles[n]];
      if handles[n].ids == [] then NonEmpty(handles[..n]) else NonEmpty(handles[..n]) + [handles[n]]
  }

  lemma NonEmptyStep(handles: seq<Handle>, h: nat)
    requires h < |handles|
    ensures NonEmpty(handles[..h + 1]) == NonEmpty(handles[..h]) + if handles[h].ids == [] then [] else [handles[h]]
  {
    assert handles[..h + 1][..h] == handles[..h];
  }

  function MembershipCuts(handles: seq<Handle>, known: seq<Id>, limit: nat, n: nat): nat
    requires n <= |handles|
  {
    if n == 0 then 0
    else
      MembershipCuts(handles, known, limit, n - 1)
        + |Filter(handles[n - 1].ids, Elements(known) - PermittedIds(handles, known, limit, n - 1))|
  }

  function CapacityCuts(handles: seq<Handle>, known: seq<Id>, cap: nat, limit: nat, n: nat): nat
    requires n <= |handles| && Ready(handles, known)
  {
    if n == 0 then 0
    else
      var valid, kept := Valid(handles, known, limit, n - 1), Kept(handles, known, cap, limit, n - 1);
      TrimmedSize(handles, known, cap, limit, n - 1);
      CapacityCuts(handles, known, cap, limit, n - 1) + (|valid| - |kept|)
  }

  lemma TrimmedSize(handles: seq<Handle>, known: seq<Id>, cap: nat, limit: nat, h: nat)
    requires h < |handles| && Ready(handles, known)
    ensures |Kept(handles, known, cap, limit, h)| <= |Valid(handles, known, limit, h)|
    ensures Distinct(Valid(handles, known, limit, h)) && Distinct(Kept(handles, known, cap, limit, h))
  {
    FilterDistinct(handles[h].ids, PermittedIds(handles, known, limit, h));
    TrimmedIsDistinct(known, Valid(handles, known, limit, h), cap);
  }

  /** For each handle, the ids its trim leaves out. */
  function Drops(handles: seq<Handle>, known: seq<Id>, cap: nat, limit: nat): (r: seq<set<Id>>)
    requires Ready(handles, known)
    ensures |r| == |handles|
  {
    seq(|handles|, h requires 0 <= h < |handles| =>
      Elements(Valid(handles, known, limit, h)) - Elements(Kept(handles, known, cap, limit, h)))
  }

  lemma {:induction false} DeduplicatedIsReady(handles: seq<Handle>, known: seq<Id>)
    requires Ready(handles, known)
    ensures Ready(Deduplicated(handles), known)
  {
    var r := Deduplicated(handles);
    forall h | 0 <= h < |r| ensures Distinct(r[h].ids) {
      assert r[h] in handles;
    }
  }

  /** The list of handles after enforcement. */
  function Enforced(handles: seq<Handle>, known: seq<Id>, cap: nat, limit: nat): seq<Handle>
    requires Ready(handles, known)
  {
    DeduplicatedIsReady(handles, known);
    NonEmpty(Trims(Deduplicated(handles), known, cap, limit))
  }

  // ---------------------------------------------------------------- how many handles hold an id

  function Memberships(handles: seq<Handle>, id: Id): nat {
    if handles == [] then 0
    else Memberships(handles[..|handles| - 1], id) + if id in handles[|handles| - 1].ids then 1 else 0
  }

  lemma MembershipsAppend(handles: seq<Handle>, handle: Handle, id: Id)
    ensures Memberships(handles + [handle], id) == Memberships(handles, id) + if id in handle.ids then 1 else 0
  {
    assert (handles + [handle])[..|handles|] == handles;
  }

  lemma {:induction false} MembershipsAreOwners(handles: seq<Handle>, id: Id)
    ensures Memberships(handles, id) == |Owners(handles, id)|
  {
    if handles != [] {
      var n := |handles| - 1;
      MembershipsAreOwners(handles[..n], id);
      assert Owners(handles, id) == Owners(handles[..n], id) + if id in handles[n].ids then {n} else {};
    } else {
      assert Owners(handles, id) == {};
    }
  }

  lemma {:induction false} EmptyHandlesHoldNothing(handles: seq<Handle>, id: Id)
    ensures Memberships(NonEmpty(handles), id) == Memberships(handles, id)
  {
    if handles != [] {
      var n := |handles| - 1;
      EmptyHandlesHoldNothing(handles[..n], id);
      if handles[n].ids != [] { MembershipsAppend(NonEmpty(handles[..n]), handles[n], id); }
    }
  }

  // ---------------------------------------------------------------- the guarantees

  /** No known id is in more than `limit` handles. */
  lemma MembershipsAreBounded(handles: seq<Handle>, known: seq<Id>, cap: nat, limit: nat, id: Id)
    requires Ready(handles, known) && id in known
    ensures Memberships(Enforced(handles, known, cap, limit), id) <= limit
  {
    DeduplicatedIsReady(handles, known);
    var hs := Deduplicated(handles);
    var trims := Trims(hs, known, cap, limit);
    EmptyHandlesHoldNothing(trims, id);
    MembershipsAreOwners(trims, id);
    PermittedOwnersBound(hs, known, limit, id);
    SubsetSize(Owners(trims, id), PermittedOwners(hs, known, limit, id));
  }

  lemma BoundedSize(handles: seq<Handle>, known: seq<Id>, cap: nat, limit: nat, h: nat)
    requires h < |handles| && Ready(handles, known)
    ensures var ids := BoundedIds(handles, known, cap, limit, h);
      && Filter(ids, Elements(known)) == Kept(handles, known, cap, limit, h)
      && Filter(ids, Elements(ids) - Elements(known)) == Unknown(handles[h], known)
      && Distinct(ids)
  {
    var kept, unknown := Kept(handles, known, cap, limit, h), Unknown(handles[h], known);
    var ids := kept + unknown;
    var foreign := Elements(ids) - Elements(known);
    FilterConcat(kept, unknown, Elements(known));
    FilterAll(kept, Elements(known));
    FilterNone(unknown, Elements(known));
    FilterConcat(kept, unknown, foreign);
    FilterNone(kept, foreign);
    FilterAll(unknown, foreign);
    TrimmedSize(handles, known, cap, limit, h);
    FilterDistinct(handles[h].ids, Elements(handles[h].ids) - Elements(known));
    DistinctConcat(kept, unknown);
  }

  /** No handle has more than `cap` known ids, none is empty, and ids stay unique. */
  lemma HandlesAreBounded(handles: seq<Handle>, known: seq<Id>, cap: nat, limit: nat)
    requires Ready(handles, known)
    ensures var r := Enforced(handles, known, cap, limit);
      && (forall h :: 0 <= h < |r| ==> Size(r[h], known) <= cap && r[h].ids != [])
      && Ready(r, known)
  {
    DeduplicatedIsReady(handles, known);
    var hs := Deduplicated(handles);
    var trims, r := Trims(hs, known, cap, limit), Enforced(handles, known, cap, limit);
    forall h | 0 <= h < |r| ensures Size(r[h], known) <= cap && r[h].ids != [] && Distinct(r[h].ids) {
      assert r[h] in trims;
      var k :| 0 <= k < |trims| && trims[k] == r[h];
      BoundedSize(hs, known, cap, limit, k);
    }
  }

  lemma HeldIdHasAMember(handles: seq<Handle>, i: nat, id: Id)
    requires i < |handles| && id in handles[i].ids
    ensures Memberships(handles, id) > 0
  {
    MembershipsAreOwners(handles, id);
    assert i in Owners(handles, id);
  }

  /** A handle that is left out has the ids of one that stays. */
  lemma {:induction false} DeduplicationLosesNoId(handles: seq<Handle>, id: Id)
    requires Memberships(handles, id) > 0
    ensures Memberships(Deduplicated(handles), id) > 0
  {
    var n := |handles| - 1;
    var front := handles[..n];
    if Listed(front, handles[n]) {
      if id in handles[n].ids {
        var i :| 0 <= i < |front| && SameIdentity(front[i], handles[n]);
        assert id in multiset(front[i].ids);
        HeldIdHasAMember(front, i, id);
      }
      DeduplicationLosesNoId(front, id);
    } else {
      MembershipsAppend(Deduplicated(front), handles[n], id);
      if Memberships(front, id) > 0 { DeduplicationLosesNoId(front, id); }
    }
  }

  /** An id that was in some handle and is now in none was dropped for capacity, and is reported. */
  lemma LostIdsAreReported(handles: seq<Handle>, known: seq<Id>, cap: nat, limit: nat, id: Id)
    requires Ready(handles, known) && limit >= 1 && id in known
    requires Memberships(handles, id) > 0 && Memberships(Enforced(handles, known, cap, limit), id) == 0
    ensures Ready(Deduplicated(handles), known)
    ensures id in Union(Drops(Deduplicated(handles), known, cap, limit), |Deduplicated(handles)|)
  {
    DeduplicatedIsReady(handles, known);
    var hs := Deduplicated(handles);
    var trims := Trims(hs, known, cap, limit);
    EmptyHandlesHoldNothing(trims, id);
    MembershipsAreOwners(trims, id);
    DeduplicationLosesNoId(handles, id);
    MembershipsAreOwners(hs, id);
    var h := SomeOwnerIsPermitted(hs, known, limit, id);
    assert id in trims[h].ids ==> h in Owners(trims, id);
    assert id in Drops(hs, known, cap, limit)[h];
  }

  /** An id whose handles all fit the cap is never lost: some owner is permitted, and its handle is not trimmed. */
  lemma UncrowdedIdsStay(handles: seq<Handle>, known: seq<Id>, cap: nat, limit: nat, id: Id)
    requires Ready(handles, known) && limit >= 1 && id in known && Memberships(handles, id) > 0
    requires forall h :: 0 <= h < |handles| && id in handles[h].ids ==> |handles[h].ids| <= cap
    ensures Memberships(Enforced(handles, known, cap, limit), id) > 0
  {
    DeduplicatedIsReady(handles, known);
    DeduplicationLosesNoId(handles, id);
    var hs := Deduplicated(handles);
    MembershipsAreOwners(hs, id);
    var h := SomeOwnerIsPermitted(hs, known, limit, id);
    assert hs[h] in handles;
    SmallOwnerKeeps(hs, known, cap, limit, h, id);
    var trims := Trims(hs, known, cap, limit);
    HeldIdHasAMember(trims, h, id);
    EmptyHandlesHoldNothing(trims, id);
  }

  lemma SmallOwnerKeeps(handles: seq<Handle>, known: seq<Id>, cap: nat, limit: nat, h: nat, id: Id)
    requires Ready(handles, known) && id in known && h in PermittedOwners(handles, known, limit, id)
    requires |handles[h].ids| <= cap
    ensures id in BoundedIds(handles, known, cap, limit, h)
  {
    FilterIsShorter(handles[h].ids, PermittedIds(handles, known, limit, h));
    assert id in Valid(handles, known, limit, h);
  }

  // ---------------------------------------------------------------- which handles keep an id

  /** The handles that hold `id` and are ranked before `h`: fewer known ids, or as many and listed earlier. */
  function SmallerOwners(handles: seq<Handle>, known: seq<Id>, id: Id, h: nat): set<nat>
    requires h < |handles|
  {
    set g: nat | g < |handles| && id in handles[g].ids && (
      |KnownOf(handles[g], known)| < |KnownOf(handles[h], known)|
      || (|KnownOf(handles[g], known)| == |KnownOf(handles[h], known)| && g < h))
  }

  function KnownOf(handle: Handle, known: seq<Id>): set<Id> {
    set id | id in handle.ids && id in known
  }

  /** The known ids of handle `h` for which fewer than `limit` owners are ranked before it. */
  function Entitled(handles: seq<Handle>, known: seq<Id>, limit: nat, h: nat): set<Id>
    requires h < |handles|
  {
    set id | id in handles[h].ids && id in known && |SmallerOwners(handles, known, id, h)| < limit
  }

  lemma SizeCounts(handle: Handle, known: seq<Id>)
    requires Distinct(handle.ids)
    ensures Size(handle, known) == |KnownOf(handle, known)|
  {
    FilterDistinct(handle.ids, Elements(known));
    DistinctSize(Filter(handle.ids, Elements(known)));
    assert Elements(Filter(handle.ids, Elements(known))) == KnownOf(handle, known);
  }

  lemma AheadIsSmaller(handles: seq<Handle>, known: seq<Id>, id: Id, h: nat)
    requires h < |handles| && Ready(handles, known)
    ensures Ahead(handles, known, id, h) == SmallerOwners(handles, known, id, h)
  {
    forall g: nat | g < |handles| ensures Size(handles[g], known) == |KnownOf(handles[g], known)| {
      SizeCounts(handles[g], known);
    }
  }

  lemma PermittedIsEntitled(handles: seq<Handle>, known: seq<Id>, limit: nat, h: nat)
    requires h < |handles| && Ready(handles, known)
    ensures PermittedIds(handles, known, limit, h) == Entitled(handles, known, limit, h)
  {
    forall id { AheadIsSmaller(handles, known, id, h); }
  }

  /** A bounded handle lists the ids it is entitled to: all of them in its own order when they fit the cap, and
      otherwise an even spread of them in source order. Its unknown ids follow. */
  ghost predicate IsBounded(before: seq<Id>, after: seq<Id>, entitled: set<Id>, known: seq<Id>, cap: nat) {
    exists kept, unknown ::
      && after == kept + unknown && IsPart(before, Elements(before) - Elements(known), unknown)
      && IsKept(before, kept, entitled, known, cap)
  }

  ghost predicate IsKept(before: seq<Id>, kept: seq<Id>, entitled: set<Id>, known: seq<Id>, cap: nat) {
    if |entitled| <= cap then IsPart(before, entitled, kept)
    else exists ordered :: IsPart(known, entitled, ordered) && EvenSpread.IsEvenSpread(ordered, kept, cap)
  }

  lemma TrimmedIsKept(before: seq<Id>, known: seq<Id>, entitled: set<Id>, cap: nat)
    requires Distinct(known) && Distinct(before) && entitled <= Elements(before) * Elements(known)
    ensures Distinct(Filter(before, entitled)) && |Filter(before, entitled)| == |entitled|
    ensures IsKept(before, Trimmed(known, Filter(before, entitled), cap), entitled, known, cap)
  {
    var valid := Filter(before, entitled);
    FilterDistinct(before, entitled);
    DistinctSize(valid);
    assert Elements(valid) == entitled;
    if |entitled| <= cap {
      FilterIsPart(before, entitled);
    } else {
      SourceOrderSize(known, valid);
      FilterIsPart(known, entitled);
      EvenSpread.KeepIsEvenSpread(InSourceOrder(known, valid), cap);
    }
  }

  /** What bounding makes of each handle, without the functions that compute it. */
  lemma BoundedHandleMeans(handles: seq<Handle>, known: seq<Id>, cap: nat, limit: nat, h: nat)
    requires h < |handles| && Ready(handles, known)
    ensures IsBounded(handles[h].ids, BoundedIds(handles, known, cap, limit, h),
                      Entitled(handles, known, limit, h), known, cap)
  {
    var before, entitled := handles[h].ids, Entitled(handles, known, limit, h);
    PermittedIsEntitled(handles, known, limit, h);
    TrimmedIsKept(before, known, entitled, cap);
    FilterIsPart(before, Elements(before) - Elements(known));
    assert BoundedIds(handles, known, cap, limit, h) == Kept(handles, known, cap, limit, h) + Unknown(handles[h], known);
  }

  /** A handle that keeps a known id has fewer than `limit` owners ranked before it. */
  lemma KeepersAreSmall(handles: seq<Handle>, known: seq<Id>, cap: nat, limit: nat, h: nat, id: Id)
    requires h < |handles| && Ready(handles, known) && id in known && id in BoundedIds(handles, known, cap, limit, h)
    ensures id in handles[h].ids && |SmallerOwners(handles, known, id, h)| < limit
  {
    PermittedIsEntitled(handles, known, limit, h);
    assert id in Entitled(handles, known, limit, h);
  }

  /** A handle whose entitled ids fit the cap loses a known id only to `limit` owners ranked before it. */
  lemma LosersAreLarge(handles: seq<Handle>, known: seq<Id>, cap: nat, limit: nat, h: nat, id: Id)
    requires h < |handles| && Ready(handles, known) && id in known && id in handles[h].ids
    requires |Entitled(handles, known, limit, h)| <= cap && id !in BoundedIds(handles, known, cap, limit, h)
    ensures |SmallerOwners(handles, known, id, h)| >= limit
  {
    PermittedIsEntitled(handles, known, limit, h);
    TrimmedIsKept(handles[h].ids, known, Entitled(handles, known, limit, h), cap);
    assert id !in Entitled(handles, known, limit, h);
  }

  /** Deduplication keeps the handles that no earlier one equals in title and ids. */
  lemma {:induction false} DeduplicatedSelects(handles: seq<Handle>) returns (at: seq<nat>)
    ensures Selects(at, handles, Deduplicated(handles)) && AreNew(at, handles)
  {
    at := [];
    if handles != [] {
      at := DeduplicatedSelects(handles[..|handles| - 1]);
      SelectsMore(at, handles, Deduplicated(handles[..|handles| - 1]));
      AreNewStep(at, handles);
      if IsNew(handles, |handles| - 1) { at := at + [|handles| - 1]; }
    }
  }

  ghost predicate IsNew(handles: seq<Handle>, i: nat)
    requires i < |handles|
  {
    forall j :: 0 <= j < i ==> !(handles[j].title == handles[i].title && multiset(handles[j].ids) == multiset(handles[i].ids))
  }

  ghost predicate AreNew(at: seq<nat>, handles: seq<Handle>) {
    forall i: nat :: i < |handles| ==> (i in at <==> IsNew(handles, i))
  }

  lemma AreNewStep(at: seq<nat>, handles: seq<Handle>)
    requires handles != [] && AreNew(at, handles[..|handles| - 1]) && |handles| - 1 !in at
    ensures AreNew(if IsNew(handles, |handles| - 1) then at + [|handles| - 1] else at, handles)
    ensures IsNew(handles, |handles| - 1) <==> !Listed(handles[..|handles| - 1], handles[|handles| - 1])
  {
    var front := handles[..|handles| - 1];
    forall i: nat | i < |front| ensures IsNew(handles, i) <==> IsNew(front, i) {
      assert forall j :: 0 <= j <= i ==> front[j] == handles[j];
    }
  }

  /** The handles that stay are those left with an id, in order. */
  lemma {:induction false} NonEmptySelects(handles: seq<Handle>) returns (at: seq<nat>)
    ensures Selects(at, handles, NonEmpty(handles)) && AreFilled(at, handles)
  {
    at := [];
    if handles != [] {
      at := NonEmptySelects(handles[..|handles| - 1]);
      SelectsMore(at, handles, NonEmpty(handles[..|handles| - 1]));
      AreFilledStep(at, handles);
      if handles[|handles| - 1].ids != [] { at := at + [|handles| - 1]; }
    }
  }

  ghost predicate AreFilled(at: seq<nat>, handles: seq<Handle>) {
    forall i: nat :: i < |handles| ==> (i in at <==> handles[i].ids != [])
  }

  lemma AreFilledStep(at: seq<nat>, handles: seq<Handle>)
    requires handles != [] && AreFilled(at, handles[..|handles| - 1]) && |handles| - 1 !in at
    ensures AreFilled(if handles[|handles| - 1].ids != [] then at + [|handles| - 1] else at, handles)
  {
    assert forall i: nat :: i < |handles| - 1 ==> handles[..|handles| - 1][i] == handles[i];
  }

  /** `r` is what bounding makes of the deduplicated handles `hs`, said without the functions that compute it. */
  ghost predicate AreBounded(hs: seq<Handle>, r: seq<Handle>, known: seq<Id>, cap: nat, limit: nat) {
    exists trims, at :: AreTrims(hs, trims, known, cap, limit) && Selects(at, trims, r) && AreFilled(at, trims)
  }

  ghost predicate AreTrims(hs: seq<Handle>, trims: seq<Handle>, known: seq<Id>, cap: nat, limit: nat) {
    |trims| == |hs| && forall h: nat :: h < |hs| ==> IsTrim(hs, trims, known, cap, limit, h)
  }

  ghost predicate IsTrim(hs: seq<Handle>, trims: seq<Handle>, known: seq<Id>, cap: nat, limit: nat, h: nat)
    requires h < |hs| == |trims|
  {
    && trims[h] == hs[h].(ids := trims[h].ids)
    && IsBounded(hs[h].ids, trims[h].ids, Entitled(hs, known, limit, h), known, cap)
  }

  /** Enforcement, whole: the first handle of each identity, bounded, without those left empty. */
  lemma EnforcedMeans(handles: seq<Handle>, known: seq<Id>, cap: nat, limit: nat) returns (first: seq<nat>)
    requires Ready(handles, known)
    ensures Selects(first, handles, Deduplicated(handles)) && AreNew(first, handles)
    ensures AreBounded(Deduplicated(handles), Enforced(handles, known, cap, limit), known, cap, limit)
  {
    var hs := Deduplicated(handles);
    first := DeduplicatedSelects(handles);
    DeduplicatedIsReady(handles, known);
    var trims := Trims(hs, known, cap, limit);
    var at := NonEmptySelects(trims);
    TrimsAreTrims(hs, known, cap, limit);
    assert AreTrims(hs, trims, known, cap, limit);
  }

  lemma TrimsAreTrims(hs: seq<Handle>, known: seq<Id>, cap: nat, limit: nat)
    requires Ready(hs, known)
    ensures AreTrims(hs, Trims(hs, known, cap, limit), known, cap, limit)
  {
    forall h: nat | h < |hs| ensures IsTrim(hs, Trims(hs, known, cap, limit), known, cap, limit, h) {
      BoundedHandleMeans(hs, known, cap, limit, h);
    }
  }

  // ---------------------------------------------------------------- what the report counts

  /** The known ids of handle `h` that at least `limit` owners are ranked before. */
  function Overowned(handles: seq<Handle>, known: seq<Id>, limit: nat, h: nat): set<Id>
    requires h < |handles|
  {
    set id | id in handles[h].ids && id in known && |SmallerOwners(handles, known, id, h)| >= limit
  }

  /** The ids handle `h` is entitled to and does not keep. */
  function TrimmedOff(handles: seq<Handle>, known: seq<Id>, cap: nat, limit: nat, h: nat): set<Id>
    requires h < |handles| && Ready(handles, known)
  {
    Entitled(handles, known, limit, h) - Elements(BoundedIds(handles, known, cap, limit, h))
  }

  function EachOverowned(handles: seq<Handle>, known: seq<Id>, limit: nat, n: nat): (sets: seq<set<Id>>)
    requires n <= |handles|
    ensures |sets| == n
  {
    seq(n, h requires 0 <= h < n => Overowned(handles, known, limit, h))
  }

  function EachTrimmedOff(handles: seq<Handle>, known: seq<Id>, cap: nat, limit: nat, n: nat): (sets: seq<set<Id>>)
    requires n <= |handles| && Ready(handles, known)
    ensures |sets| == n
  {
    seq(n, h requires 0 <= h < n => TrimmedOff(handles, known, cap, limit, h))
  }

  lemma OverownedSize(handles: seq<Handle>, known: seq<Id>, limit: nat, h: nat)
    requires h < |handles| && Ready(handles, known)
    ensures |Filter(handles[h].ids, Elements(known) - PermittedIds(handles, known, limit, h))|
         == |Overowned(handles, known, limit, h)|
  {
    var cut := Filter(handles[h].ids, Elements(known) - PermittedIds(handles, known, limit, h));
    PermittedIsEntitled(handles, known, limit, h);
    FilterDistinct(handles[h].ids, Elements(known) - PermittedIds(handles, known, limit, h));
    DistinctSize(cut);
    assert Elements(cut) == Overowned(handles, known, limit, h);
  }

  /** The membership removals are the references that at least `limit` owners are ranked before. */
  lemma {:induction false} MembershipCutsCount(handles: seq<Handle>, known: seq<Id>, limit: nat, n: nat)
    requires n <= |handles| && Ready(handles, known)
    ensures MembershipCuts(handles, known, limit, n) == SizeSum(EachOverowned(handles, known, limit, n))
  {
    if n > 0 {
      MembershipCutsCount(handles, known, limit, n - 1);
      OverownedSize(handles, known, limit, n - 1);
      assert EachOverowned(handles, known, limit, n)[..n - 1] == EachOverowned(handles, known, limit, n - 1);
    }
  }

  lemma TrimmedOffSize(handles: seq<Handle>, known: seq<Id>, cap: nat, limit: nat, h: nat)
    requires h < |handles| && Ready(handles, known)
    ensures |Valid(handles, known, limit, h)| - |Kept(handles, known, cap, limit, h)|
         == |TrimmedOff(handles, known, cap, limit, h)|
  {
    TrimmedOffIsDropped(handles, known, cap, limit, h);
    TrimmedSize(handles, known, cap, limit, h);
    DifferenceSize(Valid(handles, known, limit, h), Kept(handles, known, cap, limit, h));
  }

  lemma DifferenceSize(whole: seq<Id>, part: seq<Id>)
    requires Distinct(whole) && Distinct(part) && forall id :: id in part ==> id in whole
    ensures |whole| - |part| == |Elements(whole) - Elements(part)|
  {
    DistinctSize(whole);
    DistinctSize(part);
    assert Elements(whole) == (Elements(whole) - Elements(part)) + Elements(part);
  }

  lemma TrimmedOffIsDropped(handles: seq<Handle>, known: seq<Id>, cap: nat, limit: nat, h: nat)
    requires h < |handles| && Ready(handles, known)
    ensures TrimmedOff(handles, known, cap, limit, h)
         == Elements(Valid(handles, known, limit, h)) - Elements(Kept(handles, known, cap, limit, h))
  {
    PermittedIsEntitled(handles, known, limit, h);
    assert Elements(Valid(handles, known, limit, h)) == Entitled(handles, known, limit, h);
  }

  /** The capacity removals are the references a handle is entitled to and does not keep. */
  lemma {:induction false} CapacityCutsCount(handles: seq<Handle>, known: seq<Id>, cap: nat, limit: nat, n: nat)
    requires n <= |handles| && Ready(handles, known)
    ensures CapacityCuts(handles, known, cap, limit, n) == SizeSum(EachTrimmedOff(handles, known, cap, limit, n))
  {
    if n > 0 {
      CapacityCutsCount(handles, known, cap, limit, n - 1);
      TrimmedOffSize(handles, known, cap, limit, n - 1);
      assert EachTrimmedOff(handles, known, cap, limit, n)[..n - 1] == EachTrimmedOff(handles, known, cap, limit, n - 1);
    }
  }

  /** An id is reported as dropped exactly when some handle is entitled to it and does not keep it. */
  lemma DropsMean(handles: seq<Handle>, known: seq<Id>, cap: nat, limit: nat, id: Id)
    requires Ready(handles, known)
    ensures id in Union(Drops(handles, known, cap, limit), |handles|) <==>
      exists h: nat :: h < |handles| && id in TrimmedOff(handles, known, cap, limit, h)
  {
    UnionMeans(Drops(handles, known, cap, limit), |handles|, id);
    forall h: nat | h < |handles|
      ensures Drops(handles, known, cap, limit)[h] == TrimmedOff(handles, known, cap, limit, h)
    {
      TrimmedOffIsDropped(handles, known, cap, limit, h);
    }
  }

  // ---------------------------------------------------------------- reference accounting

  function KnownReferences(handles: seq<Handle>, known: seq<Id>): nat {
    if handles == [] then 0
    else KnownReferences(handles[..|handles| - 1], known) + Size(handles[|handles| - 1], known)
  }

  lemma {:induction false} EmptyHandlesCostNothing(handles: seq<Handle>, known: seq<Id>)
    ensures KnownReferences(NonEmpty(handles), known) == KnownReferences(handles, known)
  {
    if handles != [] {
      var n := |handles| - 1;
      EmptyHandlesCostNothing(handles[..n], known);
      if handles[n].ids != [] {
        assert (NonEmpty(handles[..n]) + [handles[n]])[..|NonEmpty(handles[..n])|] == NonEmpty(handles[..n]);
      }
    }
  }

  lemma {:induction false} PrefixAccounts(handles: seq<Handle>, known: seq<Id>, cap: nat, limit: nat, n: nat)
    requires n <= |handles| && Ready(handles, known)
    ensures KnownReferences(handles[..n], known)
         == KnownReferences(Trims(handles, known, cap, limit)[..n], known)
            + MembershipCuts(handles, known, limit, n) + CapacityCuts(handles, known, cap, limit, n)
  {
    if n > 0 {
      PrefixAccounts(handles, known, cap, limit, n - 1);
      var trims := Trims(handles, known, cap, limit);
      assert handles[..n][..n - 1] == handles[..n - 1] && trims[..n][..n - 1] == trims[..n - 1];
      HandleAccounts(handles, known, cap, limit, n - 1);
    }
  }

  lemma HandleAccounts(handles: seq<Handle>, known: seq<Id>, cap: nat, limit: nat, h: nat)
    requires h < |handles| && Ready(handles, known)
    ensures Size(handles[h], known) == Size(Trims(handles, known, cap, limit)[h], known)
      + |Filter(handles[h].ids, Elements(known) - PermittedIds(handles, known, limit, h))|
      + (|Valid(handles, known, limit, h)| - |Kept(handles, known, cap, limit, h)|)
  {
    BoundedSize(handles, known, cap, limit, h);
    FilterSplit(handles[h].ids, Elements(known), PermittedIds(handles, known, limit, h));
  }

  /** Every known reference left after deduplication is kept, cut for membership, or cut for capacity. */
  lemma ReferencesAreConserved(handles: seq<Handle>, known: seq<Id>, cap: nat, limit: nat)
    requires Ready(handles, known)
    ensures Ready(Deduplicated(handles), known)
    ensures var hs := Deduplicated(handles);
      KnownReferences(hs, known) == KnownReferences(Enforced(handles, known, cap, limit), known)
        + MembershipCuts(hs, known, limit, |hs|) + CapacityCuts(hs, known, cap, limit, |hs|)
  {
    DeduplicatedIsReady(handles, known);
    var hs := Deduplicated(handles);
    var trims := Trims(hs, known, cap, limit);
    PrefixAccounts(hs, known, cap, limit, |hs|);
    assert hs[..|hs|] == hs && trims[..|hs|] == trims;
    EmptyHandlesCostNothing(trims, known);
  }

  // ---------------------------------------------------------------- applying the bounds again

  ghost predicate NoDuplicates(handles: seq<Handle>) {
    forall i, j :: 0 <= i < j < |handles| ==> !SameIdentity(handles[i], handles[j])
  }

  lemma {:induction false} DeduplicatedFixpoint(handles: seq<Handle>)
    ensures Deduplicated(handles) == handles <==> NoDuplicates(handles)
    ensures |Deduplicated(handles)| == |handles| ==> Deduplicated(handles) == handles
  {
    if handles != [] {
      var n := |handles| - 1;
      DeduplicatedFixpoint(handles[..n]);
      assert handles == handles[..n] + [handles[n]];
      if NoDuplicates(handles) {
        assert forall i :: 0 <= i < n ==> handles[..n][i] == handles[i];
      }
    }
  }

  lemma {:induction false} AllNonEmpty(handles: seq<Handle>)
    requires forall x :: x in handles ==> x.ids != []
    ensures NonEmpty(handles) == handles
  {
    if handles != [] {
      var n := |handles| - 1;
      assert handles == handles[..n] + [handles[n]];
      AllNonEmpty(handles[..n]);
    }
  }

  /** A handle within bounds, with its unknown ids last, is left as it is. */
  lemma BoundedHandleIsStable(handles: seq<Handle>, known: seq<Id>, cap: nat, limit: nat, h: nat)
    requires h < |handles| && Ready(handles, known)
    requires forall id :: id in known ==> |Owners(handles, id)| <= limit
    requires Size(handles[h], known) <= cap
    requires handles[h].ids == Filter(handles[h].ids, Elements(known)) + Unknown(handles[h], known)
    ensures BoundedIds(handles, known, cap, limit, h) == handles[h].ids
  {
    forall id | id in handles[h].ids && id in known ensures IsPermitted(handles, known, limit, id, h) {
      var owners := Owners(handles, id);
      assert h in owners;
      SubsetSize(Ahead(handles, known, id, h), owners - {h});
    }
    FilterAgree(handles[h].ids, PermittedIds(handles, known, limit, h), Elements(known));
  }

  /** Bounding leaves these two handles of one title with the same ids, not none. */
  ghost predicate Collide(handles: seq<Handle>, known: seq<Id>, cap: nat, limit: nat, i: nat, j: nat)
    requires i < |handles| && j < |handles| && Ready(handles, known)
  {
    var a, b := BoundedIds(handles, known, cap, limit, i), BoundedIds(handles, known, cap, limit, j);
    handles[i].title == handles[j].title && a != [] && multiset(a) == multiset(b)
  }

  ghost predicate NoCollision(handles: seq<Handle>, known: seq<Id>, cap: nat, limit: nat)
    requires Ready(handles, known)
  {
    forall i, j :: 0 <= i < j < |handles| ==> !Collide(handles, known, cap, limit, i, j)
  }

  ghost predicate SameNonEmpty(a: Handle, b: Handle) {
    a.ids != [] && SameIdentity(a, b)
  }

  lemma NoDuplicatesAppend(handles: seq<Handle>, handle: Handle)
    ensures NoDuplicates(handles + [handle]) <==>
      NoDuplicates(handles) && forall x :: x in handles ==> !SameIdentity(x, handle)
  {
    var longer := handles + [handle];
    assert forall i :: 0 <= i < |handles| ==> longer[i] == handles[i];
    if NoDuplicates(longer) {
      forall x | x in handles ensures !SameIdentity(x, handle) {
        var i :| 0 <= i < |handles| && handles[i] == x;
        assert !SameIdentity(longer[i], longer[|handles|]);
      }
    }
  }

  ghost predicate NoNonEmptyDuplicates(handles: seq<Handle>) {
    forall i, j :: 0 <= i < j < |handles| ==> !SameNonEmpty(handles[i], handles[j])
  }

  lemma NoNonEmptyDuplicatesAppend(handles: seq<Handle>, handle: Handle)
    ensures NoNonEmptyDuplicates(handles + [handle]) <==>
      NoNonEmptyDuplicates(handles) && forall x :: x in handles ==> !SameNonEmpty(x, handle)
  {
    var longer := handles + [handle];
    assert forall i :: 0 <= i < |handles| ==> longer[i] == handles[i];
    if NoNonEmptyDuplicates(longer) {
      forall x | x in handles ensures !SameNonEmpty(x, handle) {
        var i :| 0 <= i < |handles| && handles[i] == x;
        assert !SameNonEmpty(longer[i], longer[|handles|]);
      }
    }
  }

  lemma NothingMatchesEmpty(a: Handle, b: Handle)
    requires SameNonEmpty(a, b)
    ensures b.ids != []
  {
    assert a.ids[0] in multiset(a.ids);
  }

  lemma {:induction false} NonEmptyDuplicates(handles: seq<Handle>)
    ensures NoDuplicates(NonEmpty(handles)) <==> NoNonEmptyDuplicates(handles)
  {
    if handles != [] {
      var front, last := handles[..|handles| - 1], handles[|handles| - 1];
      assert handles == front + [last];
      NonEmptyDuplicates(front);
      NoNonEmptyDuplicatesAppend(front, last);
      if last.ids == [] {
        forall x | x in front ensures !SameNonEmpty(x, last) {
          if SameNonEmpty(x, last) { NothingMatchesEmpty(x, last); }
        }
      } else {
        NoDuplicatesAppend(NonEmpty(front), last);
      }
    }
  }

  lemma TrimsCollide(handles: seq<Handle>, known: seq<Id>, cap: nat, limit: nat)
    requires Ready(handles, known)
    ensures NoNonEmptyDuplicates(Trims(handles, known, cap, limit)) <==> NoCollision(handles, known, cap, limit)
  {
    var trims := Trims(handles, known, cap, limit);
    forall i, j | 0 <= i < j < |handles|
      ensures SameNonEmpty(trims[i], trims[j]) <==> Collide(handles, known, cap, limit, i, j)
    {
    }
  }

  lemma DuplicatesAreCollisions(handles: seq<Handle>, known: seq<Id>, cap: nat, limit: nat)
    requires Ready(handles, known)
    ensures Ready(Deduplicated(handles), known)
    ensures NoDuplicates(Enforced(handles, known, cap, limit)) <==> NoCollision(Deduplicated(handles), known, cap, limit)
  {
    DeduplicatedIsReady(handles, known);
    NonEmptyDuplicates(Trims(Deduplicated(handles), known, cap, limit));
    TrimsCollide(Deduplicated(handles), known, cap, limit);
  }

  /** For any input, a second application changes nothing exactly when bounding makes no two handles collide. */
  lemma SecondPassIsIdleExactly(handles: seq<Handle>, known: seq<Id>, cap: nat, limit: nat)
    requires Ready(handles, known)
    ensures Ready(Enforced(handles, known, cap, limit), known) && Ready(Deduplicated(handles), known)
    ensures var once := Enforced(handles, known, cap, limit);
      Enforced(once, known, cap, limit) == once <==> NoCollision(Deduplicated(handles), known, cap, limit)
  {
    DuplicatesAreCollisions(handles, known, cap, limit);
    SecondPassIsIdle(handles, known, cap, limit);
  }

  ghost predicate DistinctTitles(handles: seq<Handle>) {
    forall i, j :: 0 <= i < j < |handles| ==> handles[i].title != handles[j].title
  }

  lemma {:induction false} DeduplicatedTitles(handles: seq<Handle>)
    requires DistinctTitles(handles)
    ensures DistinctTitles(Deduplicated(handles))
  {
    if handles != [] {
      var front, last := handles[..|handles| - 1], handles[|handles| - 1];
      DeduplicatedTitles(front);
      forall x | x in Deduplicated(front) ensures x.title != last.title {
        assert x in front;
      }
    }
  }

  /** With distinct titles a second application changes nothing. */
  lemma DistinctTitlesStayPut(handles: seq<Handle>, known: seq<Id>, cap: nat, limit: nat)
    requires Ready(handles, known) && DistinctTitles(handles)
    ensures Ready(Enforced(handles, known, cap, limit), known)
    ensures Enforced(Enforced(handles, known, cap, limit), known, cap, limit) == Enforced(handles, known, cap, limit)
  {
    SecondPassIsIdleExactly(handles, known, cap, limit);
    DeduplicatedTitles(handles);
  }

  /** A second application changes nothing exactly when the first left no two handles of one identity. */
  lemma SecondPassIsIdle(handles: seq<Handle>, known: seq<Id>, cap: nat, limit: nat)
    requires Ready(handles, known)
    ensures Ready(Enforced(handles, known, cap, limit), known)
    ensures var once := Enforced(handles, known, cap, limit);
      Enforced(once, known, cap, limit) == once <==> NoDuplicates(once)
  {
    HandlesAreBounded(handles, known, cap, limit);
    var once := Enforced(handles, known, cap, limit);
    DeduplicatedFixpoint(once);
    if NoDuplicates(once) { NoDuplicatesIsStable(handles, known, cap, limit); }
  }

  lemma NoDuplicatesIsStable(handles: seq<Handle>, known: seq<Id>, cap: nat, limit: nat)
    requires Ready(handles, known) && Ready(Enforced(handles, known, cap, limit), known)
    requires NoDuplicates(Enforced(handles, known, cap, limit))
    ensures Enforced(Enforced(handles, known, cap, limit), known, cap, limit) == Enforced(handles, known, cap, limit)
  {
    HandlesAreBounded(handles, known, cap, limit);
    var once := Enforced(handles, known, cap, limit);
    DeduplicatedFixpoint(once);
    forall id | id in known ensures |Owners(once, id)| <= limit {
      MembershipsAreBounded(handles, known, cap, limit, id);
      MembershipsAreOwners(once, id);
    }
    forall h | 0 <= h < |once| ensures BoundedIds(once, known, cap, limit, h) == once[h].ids {
      UnknownIdsComeLast(handles, known, cap, limit, once[h]);
      BoundedHandleIsStable(once, known, cap, limit, h);
    }
    assert Trims(once, known, cap, limit) == once;
    AllNonEmpty(once);
  }

  lemma UnknownIdsComeLast(handles: seq<Handle>, known: seq<Id>, cap: nat, limit: nat, handle: Handle)
    requires Ready(handles, known) && handle in Enforced(handles, known, cap, limit)
    ensures handle.ids == Filter(handle.ids, Elements(known)) + Unknown(handle, known)
  {
    DeduplicatedIsReady(handles, known);
    var hs := Deduplicated(handles);
    var trims := Trims(hs, known, cap, limit);
    assert handle in trims;
    var k :| 0 <= k < |trims| && trims[k] == handle;
    BoundedSize(hs, known, cap, limit, k);
  }

  lemma PairIsPermitted(handles: seq<Handle>, known: seq<Id>, cap: nat, h: nat)
    requires |handles| == 2 && h < 2 && Ready(handles, known)
    requires forall id :: id in handles[h].ids ==> id in known
    ensures BoundedIds(handles, known, cap, 2, h) == Trimmed(known, handles[h].ids, cap)
  {
    var ids := handles[h].ids;
    forall id | id in ids ensures IsPermitted(handles, known, 2, id, h) {
      SubsetSize(Ahead(handles, known, id, h), {0, 1} - {h});
    }
    FilterAll(ids, PermittedIds(handles, known, 2, h));
    FilterNone(ids, Elements(ids) - Elements(known));
  }

  /** Handles of one title that differ only in `y`. */
  function TwoViews(x: Id, y: Id, title: string, summary: string): seq<Handle> {
    [Handle(title, summary, [x, y]), Handle(title, summary, [x])]
  }

  lemma TwoViewsAreDistinct(x: Id, y: Id, title: string, summary: string)
    requires x != y
    ensures Ready(TwoViews(x, y, title, summary), [x, y])
    ensures Deduplicated(TwoViews(x, y, title, summary)) == TwoViews(x, y, title, summary)
  {
    DistinctMeans([x, y]);
    DistinctMeans([x]);
    DeduplicatedFixpoint(TwoViews(x, y, title, summary));
    assert multiset([x, y])[y] == 1 && multiset([x])[y] == 0;
  }

  lemma TrimToFirst(x: Id, y: Id)
    requires x != y && Distinct([x, y]) && Distinct([x])
    ensures Trimmed([x, y], [x, y], 1) == [x] && Trimmed([x, y], [x], 1) == [x]
  {
    FilterAll([x, y], Elements([x, y]));
  }

  lemma TwoViewsCollapse(x: Id, y: Id, title: string, summary: string)
    requires x != y && Ready(TwoViews(x, y, title, summary), [x, y])
    ensures var only := Handle(title, summary, [x]);
      Trims(TwoViews(x, y, title, summary), [x, y], 1, 2) == [only, only]
  {
    var handles := TwoViews(x, y, title, summary);
    assert Distinct(handles[0].ids) && Distinct(handles[1].ids);
    PairIsPermitted(handles, [x, y], 1, 0);
    PairIsPermitted(handles, [x, y], 1, 1);
    TrimToFirst(x, y);
  }

  /** Two handles of one title can become one identity, and a second application then removes one. */
  lemma SecondPassCanRemoveAHandle(x: Id, y: Id, title: string, summary: string)
    requires x != y
    ensures Ready(TwoViews(x, y, title, summary), [x, y])
    ensures var once := Enforced(TwoViews(x, y, title, summary), [x, y], 1, 2);
      Ready(once, [x, y]) && Enforced(once, [x, y], 1, 2) != once
  {
    TwoViewsAreDistinct(x, y, title, summary);
    TwoViewsCollapse(x, y, title, summary);
    var only := Handle(title, summary, [x]);
    AllNonEmpty([only, only]);
    assert SameIdentity([only, only][0], [only, only][1]);
    SecondPassIsIdle(TwoViews(x, y, title, summary), [x, y], 1, 2);
  }
}
