/** Collapsing overlapping concern records across topics, then bounding how many records hold one id. */
module ConcernMerge {
  import opened Lists

  type Id = string

  /** `tokens` are the content tokens of the record's text; `handles` its topic handles. */
  datatype Item = Item(
    tokens: set<string>, ids: seq<Id>, entities: seq<string>, topic: int, local: int, handles: seq<string>)

  const MERGED_LIMIT: nat := 6

  /** `_same_concern`: another topic, half of the smaller id set shared, and a shared content token. */
  predicate SameConcern(a: Item, b: Item) {
    var left, right := Elements(a.ids), Elements(b.ids);
    var overlap := |left * right|;
    var smaller := if |left| < |right| then |left| else |right|;
    a.topic != b.topic && overlap > 0 && 2 * overlap >= smaller && a.tokens * b.tokens != {}
  }

  /** The position of the first record the candidate duplicates, or the length. */
  function FindDuplicate(merged: seq<Item>, candidate: Item, i: nat): (k: nat)
    requires i <= |merged|
    ensures i <= k <= |merged|
    ensures k < |merged| ==> SameConcern(merged[k], candidate)
    ensures forall j :: i <= j < k ==> !SameConcern(merged[j], candidate)
    decreases |merged| - i
  {
    if i == |merged| || SameConcern(merged[i], candidate) then i else FindDuplicate(merged, candidate, i + 1)
  }

  function Union(a: Item, b: Item): (ids: seq<Id>)
    ensures Distinct(ids) && forall id :: id in ids <==> id in a.ids || id in b.ids
  {
    FirstOccurrences(a.ids + b.ids)
  }

  function Cut(ids: seq<Id>): (r: seq<Id>)
    ensures |r| <= MERGED_LIMIT && forall id :: id in r ==> id in ids
  {
    if |ids| <= MERGED_LIMIT then ids else ids[..MERGED_LIMIT]
  }

  function MergedInto(duplicate: Item, candidate: Item): Item {
    duplicate.(ids := Cut(Union(duplicate, candidate)),
               entities := FirstOccurrences(duplicate.entities + candidate.entities),
               handles := duplicate.handles + candidate.handles)
  }

  /** The records merged so far, and the ids that a cut to six left out of some record. */
  datatype Merge = Merge(merged: seq<Item>, cut: set<Id>)

  function Merged(m: Merge, candidate: Item): Merge {
    var k := FindDuplicate(m.merged, candidate, 0);
    if k == |m.merged| then Merge(m.merged + [candidate], m.cut)
    else
      var union := Union(m.merged[k], candidate);
      Merge(m.merged[k := MergedInto(m.merged[k], candidate)], m.cut + (Elements(union) - Elements(Cut(union))))
  }

  /** The merge pass: what has been merged before each candidate and after the last one. */
  ghost predicate IsMergePass(states: seq<Merge>, candidates: seq<Item>) {
    && |states| == |candidates| + 1 && states[0] == Merge([], {})
    && forall k: nat :: k < |candidates| ==> IsMergeStep(states, candidates, k)
  }

  ghost predicate IsMergeStep(states: seq<Merge>, candidates: seq<Item>, k: nat)
    requires k < |candidates| && |states| == |candidates| + 1
  {
    states[k + 1] == Merged(states[k], candidates[k])
  }

  predicate Holds(items: seq<Item>, id: Id) {
    exists i :: 0 <= i < |items| && id in items[i].ids
  }

  ghost predicate UniqueIds(items: seq<Item>) {
    forall i :: 0 <= i < |items| ==> Distinct(items[i].ids)
  }

  lemma HoldsAppend(items: seq<Item>, item: Item, id: Id)
    ensures Holds(items + [item], id) <==> Holds(items, id) || id in item.ids
  {
    assert (items + [item])[|items|] == item;
    if Holds(items, id) {
      var i :| 0 <= i < |items| && id in items[i].ids;
      assert (items + [item])[i] == items[i];
    }
  }

  lemma HoldsUpdate(items: seq<Item>, k: nat, item: Item, id: Id)
    requires k < |items|
    ensures Holds(items[k := item], id) ==> Holds(items, id) || id in item.ids
    ensures Holds(items, id) ==> Holds(items[k := item], id) || (id in items[k].ids && id !in item.ids)
    ensures id in item.ids ==> Holds(items[k := item], id)
  {
    assert items[k := item][k] == item;
    if Holds(items, id) {
      var i :| 0 <= i < |items| && id in items[i].ids;
      if i != k { assert items[k := item][i] == items[i]; }
    }
  }

  ghost predicate Known(m: Merge, id: Id) {
    Holds(m.merged, id) || id in m.cut
  }

  lemma MergeAccounts(m: Merge, candidate: Item, id: Id)
    ensures Known(Merged(m, candidate), id) <==> Known(m, id) || id in candidate.ids
  {
    var k := FindDuplicate(m.merged, candidate, 0);
    if k == |m.merged| {
      HoldsAppend(m.merged, candidate, id);
    } else {
      HoldsUpdate(m.merged, k, MergedInto(m.merged[k], candidate), id);
      assert id in m.merged[k].ids ==> Holds(m.merged, id);
    }
  }

  /** No id is invented, and an id of the input is missing from the merged records only if it was cut. */
  lemma {:induction false} MergeInventsAndLosesNothing(states: seq<Merge>, candidates: seq<Item>, n: nat, id: Id)
    requires n <= |candidates| && IsMergePass(states, candidates)
    ensures Known(states[n], id) <==> Holds(candidates[..n], id)
  {
    if n > 0 {
      MergeInventsAndLosesNothing(states, candidates, n - 1, id);
      assert IsMergeStep(states, candidates, n - 1);
      MergeAccounts(states[n - 1], candidates[n - 1], id);
      HoldsPrefix(candidates, n, id);
    }
  }

  lemma HoldsPrefix(items: seq<Item>, n: nat, id: Id)
    requires 0 < n <= |items|
    ensures Holds(items[..n], id) <==> Holds(items[..n - 1], id) || id in items[n - 1].ids
  {
    assert items[..n] == items[..n - 1] + [items[n - 1]];
    HoldsAppend(items[..n - 1], items[n - 1], id);
  }

  // ---------------------------------------------------------------- what a merge makes

  /** Half of either record's ids shared, or more, with a token in common and different topics. */
  lemma SameConcernMeans(a: Item, b: Item)
    ensures SameConcern(a, b) <==>
      && a.topic != b.topic && (exists token :: token in a.tokens && token in b.tokens)
      && (exists id :: id in a.ids && id in b.ids)
      && var shared := set id | id in a.ids && id in b.ids;
         2 * |shared| >= |Elements(a.ids)| || 2 * |shared| >= |Elements(b.ids)|
  {
    var shared := set id | id in a.ids && id in b.ids;
    assert Elements(a.ids) * Elements(b.ids) == shared;
    if token :| token in a.tokens && token in b.tokens { assert token in a.tokens * b.tokens; }
    if id :| id in a.ids && id in b.ids { assert id in shared; }
    if SameConcern(a, b) {
      var token :| token in a.tokens * b.tokens;
      var id :| id in shared;
    }
  }

  /** Two distinct lists: the first, then what is new of the second. */
  lemma {:induction false} UnionOfDistinct(a: seq<Id>, b: seq<Id>)
    requires Distinct(a) && Distinct(b)
    ensures FirstOccurrences(a + b) == a + Filter(b, Elements(b) - Elements(a))
  {
    if b == [] {
      assert a + b == a;
      DistinctIsFirst(a);
    } else {
      var front, x := b[..|b| - 1], b[|b| - 1];
      UnionOfDistinct(a, front);
      assert (a + b)[..|a + b| - 1] == a + front && (a + b)[|a + b| - 1] == x;
      FilterAgree(front, Elements(front) - Elements(a), Elements(b) - Elements(a));
    }
  }

  lemma {:induction false} DistinctIsFirst(s: seq<Id>)
    requires Distinct(s)
    ensures FirstOccurrences(s) == s
  {
    if s != [] {
      DistinctIsFirst(s[..|s| - 1]);
      assert s == s[..|s| - 1] + [s[|s| - 1]];
    }
  }

  /** The first six of these ids, or all of them. */
  ghost predicate IsFirstSix(ids: seq<Id>, r: seq<Id>) {
    r <= ids && |r| == if |ids| < 6 then |ids| else 6
  }

  /** The ids of the record, then the candidate's other ids in the candidate's order, cut to six. */
  ghost predicate AreMergedIds(record: seq<Id>, candidate: seq<Id>, r: seq<Id>) {
    exists more :: IsPart(candidate, Elements(candidate) - Elements(record), more) && IsFirstSix(record + more, r)
  }

  lemma MergedIdsMean(record: Item, candidate: Item)
    requires Distinct(record.ids) && Distinct(candidate.ids)
    ensures AreMergedIds(record.ids, candidate.ids, MergedInto(record, candidate).ids)
  {
    var added := Elements(candidate.ids) - Elements(record.ids);
    UnionOfDistinct(record.ids, candidate.ids);
    FilterIsPart(candidate.ids, added);
    CutIsFirstSix(record.ids + Filter(candidate.ids, added));
    assert MergedInto(record, candidate).ids == Cut(record.ids + Filter(candidate.ids, added));
  }

  lemma CutIsFirstSix(ids: seq<Id>)
    ensures IsFirstSix(ids, Cut(ids))
  {
  }

  /** A record of at most six ids keeps them all, in place; what is cut is new with the candidate. */
  lemma ShortRecordsLoseNothing(record: Item, candidate: Item, id: Id)
    requires Distinct(record.ids) && Distinct(candidate.ids) && |record.ids| <= 6
    ensures record.ids <= MergedInto(record, candidate).ids
    ensures PastSixth(Union(record, candidate), id) ==> id in candidate.ids && id !in record.ids
  {
    UnionOfDistinct(record.ids, candidate.ids);
    if PastSixth(Union(record, candidate), id) {
      var p :| 6 <= p < |Union(record, candidate)| && Union(record, candidate)[p] == id;
      assert id in Filter(candidate.ids, Elements(candidate.ids) - Elements(record.ids));
    }
  }

  /** What merging a candidate into a record makes of it. */
  ghost predicate IsMergedInto(record: Item, candidate: Item, r: Item) {
    && AreMergedIds(record.ids, candidate.ids, r.ids)
    && r.handles == record.handles + candidate.handles
    && AreFirstListed(record.entities + candidate.entities, r.entities)
    && r.tokens == record.tokens && r.topic == record.topic && r.local == record.local
  }

  ghost predicate AreFirstListed(s: seq<string>, r: seq<string>) {
    exists at :: Selects(at, s, r) && AreFirst(at, s)
  }

  predicate IsFirstDuplicate(merged: seq<Item>, candidate: Item, k: nat) {
    && k < |merged| && SameConcern(merged[k], candidate)
    && forall i :: 0 <= i < k ==> !SameConcern(merged[i], candidate)
  }

  /** The step, without the functions that compute it: a new record, or the first duplicate merged in place. */
  lemma MergeStepMeans(m: Merge, candidate: Item)
    requires UniqueIds(m.merged) && Distinct(candidate.ids)
    ensures (forall i :: 0 <= i < |m.merged| ==> !SameConcern(m.merged[i], candidate)) ==>
      Merged(m, candidate).merged == m.merged + [candidate]
    ensures forall k: nat :: IsFirstDuplicate(m.merged, candidate, k) ==>
      var r := Merged(m, candidate).merged;
      && |r| == |m.merged| && IsMergedInto(m.merged[k], candidate, r[k])
      && forall i :: 0 <= i < |r| && i != k ==> r[i] == m.merged[i]
  {
    var d := FindDuplicate(m.merged, candidate, 0);
    if d < |m.merged| {
      MergedIdsMean(m.merged[d], candidate);
      var at := FirstOccurrencesSelect(m.merged[d].entities + candidate.entities);
      assert AreFirstListed(m.merged[d].entities + candidate.entities, MergedInto(m.merged[d], candidate).entities);
    }
  }

  // ---------------------------------------------------------------- what is cut

  /** Merging the candidate makes a union of more than six ids, with `id` past the sixth. */
  ghost predicate StepCuts(merged: seq<Item>, candidate: Item, id: Id) {
    var d := FindDuplicate(merged, candidate, 0);
    d < |merged| && PastSixth(Union(merged[d], candidate), id)
  }

  ghost predicate PastSixth(ids: seq<Id>, id: Id) {
    exists p :: MERGED_LIMIT <= p < |ids| && ids[p] == id
  }

  lemma LeftOutIsPastSixth(ids: seq<Id>, id: Id)
    requires Distinct(ids)
    ensures id in Elements(ids) - Elements(Cut(ids)) <==> PastSixth(ids, id)
  {
    DistinctMeans(ids);
    if |ids| > MERGED_LIMIT { assert forall p :: 0 <= p < MERGED_LIMIT ==> Cut(ids)[p] == ids[p]; }
  }

  lemma StepCutsIds(m: Merge, candidate: Item, id: Id)
    ensures id in Merged(m, candidate).cut <==> id in m.cut || StepCuts(m.merged, candidate, id)
  {
    var d := FindDuplicate(m.merged, candidate, 0);
    if d < |m.merged| { LeftOutIsPastSixth(Union(m.merged[d], candidate), id); }
  }

  lemma {:induction false} SomeStepCuts(states: seq<Merge>, candidates: seq<Item>, n: nat, id: Id) returns (k: nat)
    requires n <= |candidates| && IsMergePass(states, candidates) && id in states[n].cut
    ensures k < n && StepCuts(states[k].merged, candidates[k], id)
  {
    assert IsMergeStep(states, candidates, n - 1);
    StepCutsIds(states[n - 1], candidates[n - 1], id);
    k := n - 1;
    if id in states[n - 1].cut { k := SomeStepCuts(states, candidates, n - 1, id); }
  }

  lemma {:induction false} CutsStay(states: seq<Merge>, candidates: seq<Item>, k: nat, n: nat, id: Id)
    requires k < n <= |candidates| && IsMergePass(states, candidates)
    requires StepCuts(states[k].merged, candidates[k], id)
    ensures id in states[n].cut
  {
    assert IsMergeStep(states, candidates, n - 1);
    StepCutsIds(states[n - 1], candidates[n - 1], id);
    if k < n - 1 { CutsStay(states, candidates, k, n - 1, id); }
  }

  /** The ids cut are exactly those past the sixth of the union some merge step formed. */
  lemma CutIdsArePastSixth(states: seq<Merge>, candidates: seq<Item>, n: nat, id: Id)
    requires n <= |candidates| && IsMergePass(states, candidates)
    ensures id in states[n].cut <==> exists k: nat :: k < n && StepCuts(states[k].merged, candidates[k], id)
  {
    if id in states[n].cut { var k := SomeStepCuts(states, candidates, n, id); }
    forall k: nat | k < n && StepCuts(states[k].merged, candidates[k], id) ensures id in states[n].cut {
      CutsStay(states, candidates, k, n, id);
    }
  }

  /** A merged record has at most six ids; any other is a candidate as it came. */
  ghost predicate IsShort(item: Item, candidates: seq<Item>) {
    |item.ids| <= MERGED_LIMIT || item in candidates
  }

  ghost predicate AreShort(items: seq<Item>, candidates: seq<Item>) {
    forall i :: 0 <= i < |items| ==> IsShort(items[i], candidates)
  }

  lemma MergedStaysShort(m: Merge, candidates: seq<Item>, candidate: Item)
    requires AreShort(m.merged, candidates) && candidate in candidates
    ensures AreShort(Merged(m, candidate).merged, candidates)
  {
  }

  lemma {:induction false} MergedRecordsAreShort(states: seq<Merge>, candidates: seq<Item>, n: nat)
    requires n <= |candidates| && IsMergePass(states, candidates)
    ensures AreShort(states[n].merged, candidates)
  {
    if n > 0 {
      MergedRecordsAreShort(states, candidates, n - 1);
      assert IsMergeStep(states, candidates, n - 1);
      MergedStaysShort(states[n - 1], candidates, candidates[n - 1]);
    }
  }

  /** Ids stay unique. */
  lemma {:induction false} MergedRecordsAreUnique(states: seq<Merge>, candidates: seq<Item>, n: nat)
    requires n <= |candidates| && UniqueIds(candidates) && IsMergePass(states, candidates)
    ensures UniqueIds(states[n].merged)
  {
    if n > 0 {
      MergedRecordsAreUnique(states, candidates, n - 1);
      assert IsMergeStep(states, candidates, n - 1);
      MergeStepIsUnique(states[n - 1], candidates[n - 1]);
    }
  }

  lemma MergeStepIsUnique(m: Merge, candidate: Item)
    requires UniqueIds(m.merged) && Distinct(candidate.ids)
    ensures UniqueIds(Merged(m, candidate).merged)
  {
    var k := FindDuplicate(m.merged, candidate, 0);
    if k < |m.merged| { CutUnionIsDistinct(Union(m.merged[k], candidate)); }
  }

  lemma CutUnionIsDistinct(ids: seq<Id>)
    requires Distinct(ids)
    ensures Distinct(Cut(ids))
  {
    if |ids| > MERGED_LIMIT { PrefixIsDistinct(ids, MERGED_LIMIT); }
  }

  // ---------------------------------------------------------------- bounded memberships

  function Memberships(items: seq<Item>, id: Id): nat {
    if items == [] then 0
    else Memberships(items[..|items| - 1], id) + if id in items[|items| - 1].ids then 1 else 0
  }

  lemma MembershipsAppend(items: seq<Item>, item: Item, id: Id)
    ensures Memberships(items + [item], id) == Memberships(items, id) + if id in item.ids then 1 else 0
  {
    assert (items + [item])[..|items|] == items;
  }

  function Admissible(bounded: seq<Item>, item: Item, limit: int): seq<Id> {
    Filter(item.ids, set id | id in item.ids && Memberships(bounded, id) < limit)
  }

  function Bounded(bounded: seq<Item>, item: Item, limit: int): seq<Item> {
    var ids := Admissible(bounded, item, limit);
    if ids == [] then bounded else bounded + [item.(ids := ids)]
  }

  function BoundPass(merged: seq<Item>, n: nat, limit: int): seq<Item>
    requires n <= |merged|
  {
    if n == 0 then [] else Bounded(BoundPass(merged, n - 1, limit), merged[n - 1], limit)
  }

  /** An id is in at most `limit` records, in one at least if a record offered it, and in none that did not have it. */
  lemma {:induction false} BoundPassMemberships(merged: seq<Item>, n: nat, limit: int, id: Id)
    requires n <= |merged|
    ensures Memberships(BoundPass(merged, n, limit), id) <= if limit < 0 then 0 else limit
    ensures limit >= 1 && Holds(merged[..n], id) ==> Memberships(BoundPass(merged, n, limit), id) >= 1
    ensures Memberships(BoundPass(merged, n, limit), id) >= 1 ==> Holds(merged[..n], id)
  {
    if n > 0 {
      BoundPassMemberships(merged, n - 1, limit, id);
      var before, item := BoundPass(merged, n - 1, limit), merged[n - 1];
      HoldsPrefix(merged, n, id);
      MembershipsAppend(before, item.(ids := Admissible(before, item, limit)), id);
    }
  }

  /** The records below `n` that hold `id`. */
  function Holders(items: seq<Item>, n: nat, id: Id): set<nat> {
    set i: nat | i < |items| && i < n && id in items[i].ids
  }

  lemma HoldersStep(items: seq<Item>, n: nat, id: Id)
    requires 0 < n <= |items|
    ensures |Holders(items, n, id)| == |Holders(items, n - 1, id)| + if id in items[n - 1].ids then 1 else 0
  {
    assert Holders(items, n, id) == Holders(items, n - 1, id) + if id in items[n - 1].ids then {n - 1} else {};
  }

  lemma BoundedCounts(before: seq<Item>, item: Item, limit: int, id: Id)
    ensures Memberships(Bounded(before, item, limit), id)
         == Memberships(before, id) + if id in item.ids && Memberships(before, id) < limit then 1 else 0
  {
    MembershipsAppend(before, item.(ids := Admissible(before, item, limit)), id);
  }

  /** The smaller of the two, but not below zero. */
  function Capped(n: nat, limit: int): nat {
    if n < limit then n else if limit < 0 then 0 else limit
  }

  /** An id is in as many bounded records as it was offered in, up to the limit. */
  lemma {:induction false} BoundPassCounts(merged: seq<Item>, n: nat, limit: int, id: Id)
    requires n <= |merged|
    ensures Memberships(BoundPass(merged, n, limit), id) == Capped(|Holders(merged, n, id)|, limit)
  {
    if n > 0 {
      BoundPassCounts(merged, n - 1, limit, id);
      BoundedCounts(BoundPass(merged, n - 1, limit), merged[n - 1], limit, id);
      HoldersStep(merged, n, id);
    } else {
      assert Holders(merged, 0, id) == {};
    }
  }

  /** The ids of record `n` that fewer than `limit` records before it hold. */
  function OpenIds(merged: seq<Item>, n: nat, limit: int): set<Id>
    requires n < |merged|
  {
    set id | id in merged[n].ids && |Holders(merged, n, id)| < limit
  }

  /** Every record keeps, in order, the ids that fewer than `limit` earlier records hold. */
  lemma AdmissibleMeans(merged: seq<Item>, n: nat, limit: int)
    requires n < |merged|
    ensures IsPart(merged[n].ids, OpenIds(merged, n, limit), Admissible(BoundPass(merged, n, limit), merged[n], limit))
  {
    forall id | id in merged[n].ids
      ensures Memberships(BoundPass(merged, n, limit), id) < limit <==> |Holders(merged, n, id)| < limit
    {
      BoundPassCounts(merged, n, limit, id);
    }
    assert OpenIds(merged, n, limit)
        == set id | id in merged[n].ids && Memberships(BoundPass(merged, n, limit), id) < limit;
    FilterIsPart(merged[n].ids, OpenIds(merged, n, limit));
  }

  /** The record at a kept position, with the ids open to it. */
  ghost predicate IsBoundedAt(merged: seq<Item>, p: nat, limit: int, r: Item) {
    p < |merged| && r == merged[p].(ids := r.ids) && IsPart(merged[p].ids, OpenIds(merged, p, limit), r.ids)
  }

  /** `bounded` has, in order, one record for every position where some id is open. */
  ghost predicate AreBoundedAt(merged: seq<Item>, n: nat, limit: int, bounded: seq<Item>, at: seq<nat>)
    requires n <= |merged|
  {
    && |at| == |bounded| && (forall i, j :: 0 <= i < j < |at| ==> at[i] < at[j])
    && (forall j :: 0 <= j < |at| ==> IsBoundedAt(merged, at[j], limit, bounded[j]))
    && (forall p: nat :: p in at <==> p < n && OpenIds(merged, p, limit) != {})
  }

  lemma NothingOpenAt(merged: seq<Item>, n: nat, limit: int, before: seq<Item>, at: seq<nat>)
    requires n < |merged| && AreBoundedAt(merged, n, limit, before, at) && OpenIds(merged, n, limit) == {}
    ensures AreBoundedAt(merged, n + 1, limit, before, at)
  {
    assert n !in at;
  }

  lemma SomethingOpenAt(merged: seq<Item>, n: nat, limit: int, before: seq<Item>, at: seq<nat>, r: Item)
    requires n < |merged| && AreBoundedAt(merged, n, limit, before, at)
    requires OpenIds(merged, n, limit) != {} && IsBoundedAt(merged, n, limit, r)
    ensures AreBoundedAt(merged, n + 1, limit, before + [r], at + [n])
  {
    var longer := at + [n];
    forall j | 0 <= j < |at| ensures longer[j] < n { assert at[j] in at; }
    forall p: nat ensures p in longer <==> p < n + 1 && OpenIds(merged, p, limit) != {} {
      assert p in longer <==> p in at || p == n;
    }
  }

  lemma BoundPassMeans(merged: seq<Item>, n: nat, limit: int) returns (at: seq<nat>)
    requires n <= |merged|
    ensures AreBoundedAt(merged, n, limit, BoundPass(merged, n, limit), at)
  {
    at := [];
    var bounded := [];
    for i := 0 to n
      invariant bounded == BoundPass(merged, i, limit) && AreBoundedAt(merged, i, limit, bounded, at)
    {
      AdmissibleMeans(merged, i, limit);
      bounded, at := NextBoundedAt(merged, i, limit, bounded, at);
    }
  }

  lemma NextBoundedAt(merged: seq<Item>, n: nat, limit: int, before: seq<Item>, at: seq<nat>)
    returns (after: seq<Item>, more: seq<nat>)
    requires n < |merged| && AreBoundedAt(merged, n, limit, before, at)
    requires IsPart(merged[n].ids, OpenIds(merged, n, limit), Admissible(before, merged[n], limit))
    ensures after == Bounded(before, merged[n], limit) && AreBoundedAt(merged, n + 1, limit, after, more)
  {
    var ids := Admissible(before, merged[n], limit);
    after, more := before, at;
    PartIsEmpty(merged[n].ids, OpenIds(merged, n, limit), ids);
    if ids == [] {
      NothingOpenAt(merged, n, limit, before, at);
    } else {
      SomethingOpenAt(merged, n, limit, before, at, merged[n].(ids := ids));
      after, more := before + [merged[n].(ids := ids)], at + [n];
    }
  }

  lemma PartIsEmpty(s: seq<Id>, keep: set<Id>, r: seq<Id>)
    requires IsPart(s, keep, r) && forall id :: id in keep ==> id in s
    ensures r == [] <==> keep == {}
  {
    var at :| Selects(at, s, r) && forall i :: 0 <= i < |s| ==> (i in at <==> s[i] in keep);
    assert forall id :: id in keep ==> exists i :: 0 <= i < |s| && s[i] == id;
    if r != [] {
      assert at[0] in at;
      assert s[at[0]] in keep;
    }
  }

  lemma {:induction false} BoundedRecordsAreNotEmpty(merged: seq<Item>, n: nat, limit: int)
    requires n <= |merged|
    ensures forall i :: 0 <= i < |BoundPass(merged, n, limit)| ==> BoundPass(merged, n, limit)[i].ids != []
  {
    if n > 0 { BoundedRecordsAreNotEmpty(merged, n - 1, limit); }
  }

  // ---------------------------------------------------------------- the whole pass

  /** The order candidates are merged in: larger records first, then by topic, then by local position. */
  predicate Precedes(a: Item, b: Item) {
    |a.ids| > |b.ids| || (|a.ids| == |b.ids|
      && (a.topic < b.topic || (a.topic == b.topic && a.local <= b.local)))
  }

  /** Records with more ids come first, then those of an earlier topic, then those listed earlier in it. */
  ghost predicate IsSorted(items: seq<Item>) {
    forall i, j :: 0 <= i < j < |items| ==>
      && |items[i].ids| >= |items[j].ids|
      && (|items[i].ids| == |items[j].ids| ==> items[i].topic <= items[j].topic)
      && (|items[i].ids| == |items[j].ids| && items[i].topic == items[j].topic ==> items[i].local <= items[j].local)
  }

  ghost predicate InOrder(items: seq<Item>) {
    forall i, j :: 0 <= i < j < |items| ==> Precedes(items[i], items[j])
  }

  lemma SortedIsUnique(a: seq<Item>, b: seq<Item>)
    requires multiset(a) == multiset(b) && UniqueIds(a)
    ensures UniqueIds(b)
  {
    forall i | 0 <= i < |b| ensures Distinct(b[i].ids) {
      assert b[i] in multiset(b);
      assert b[i] in a;
    }
  }

  method Insert(sorted: seq<Item>, item: Item) returns (longer: seq<Item>)
    requires InOrder(sorted)
    ensures InOrder(longer) && multiset(longer) == multiset(sorted) + multiset{item}
  {
    var k := 0;
    while k < |sorted| && Precedes(sorted[k], item)
      invariant 0 <= k <= |sorted|
      invariant forall i :: 0 <= i < k ==> Precedes(sorted[i], item)
    {
      k := k + 1;
    }
    longer := sorted[..k] + [item] + sorted[k..];
    InsertedInOrder(sorted, k, item);
    assert sorted == sorted[..k] + sorted[k..];
  }

  lemma InsertedInOrder(sorted: seq<Item>, k: nat, item: Item)
    requires InOrder(sorted) && k <= |sorted| && (k < |sorted| ==> !Precedes(sorted[k], item))
    requires forall i :: 0 <= i < k ==> Precedes(sorted[i], item)
    ensures InOrder(sorted[..k] + [item] + sorted[k..])
  {
    forall j | k <= j < |sorted| ensures Precedes(item, sorted[j]) {
      assert Precedes(sorted[k], sorted[j]) || j == k;
    }
  }

  /** `sorted(items, key=...)`. */
  method Sort(items: seq<Item>) returns (sorted: seq<Item>)
    ensures InOrder(sorted) && multiset(sorted) == multiset(items)
  {
    sorted := [];
    for i := 0 to |items|
      invariant InOrder(sorted) && multiset(sorted) == multiset(items[..i])
    {
      assert items[..i + 1] == items[..i] + [items[i]];
      sorted := Insert(sorted, items[i]);
    }
    assert items[..|items|] == items;
  }

  lemma SameHolds(a: seq<Item>, b: seq<Item>, id: Id)
    requires multiset(a) == multiset(b)
    ensures Holds(a, id) <==> Holds(b, id)
  {
    forall x ensures x in a <==> x in b { assert x in multiset(a) <==> x in multiset(b); }
    if Holds(a, id) {
      var i :| 0 <= i < |a| && id in a[i].ids;
      assert a[i] in b;
    }
    if Holds(b, id) {
      var i :| 0 <= i < |b| && id in b[i].ids;
      assert b[i] in a;
    }
  }

  /** The body of the merge loop. */
  method MergeOne(m: Merge, candidate: Item) returns (next: Merge)
    ensures next == Merged(m, candidate)
  {
    var k := FindDuplicate(m.merged, candidate, 0);
    if k < |m.merged| {
      var union := Union(m.merged[k], candidate);
      next := Merge(m.merged[k := MergedInto(m.merged[k], candidate)],
                    m.cut + (Elements(union) - Elements(Cut(union))));
    } else {
      next := Merge(m.merged + [candidate], m.cut);
    }
  }

  /** The states after the first `n` candidates. */
  ghost predicate AreStates(states: seq<Merge>, candidates: seq<Item>, n: nat)
    requires n <= |candidates|
  {
    && |states| == n + 1 && states[0] == Merge([], {})
    && forall k: nat :: k < n ==> states[k + 1] == Merged(states[k], candidates[k])
  }

  lemma StatesGrow(states: seq<Merge>, candidates: seq<Item>, n: nat, next: Merge)
    requires n < |candidates| && AreStates(states, candidates, n) && next == Merged(states[n], candidates[n])
    ensures AreStates(states + [next], candidates, n + 1)
  {
  }

  lemma StatesArePass(states: seq<Merge>, candidates: seq<Item>)
    requires AreStates(states, candidates, |candidates|)
    ensures IsMergePass(states, candidates)
  {
    forall k: nat | k < |candidates| ensures IsMergeStep(states, candidates, k) {}
  }

  /** The merge loop. */
  method MergeLoop(candidates: seq<Item>) returns (m: Merge, ghost states: seq<Merge>)
    ensures IsMergePass(states, candidates) && m == states[|candidates|]
  {
    m := Merge([], {});
    states := [m];
    for n := 0 to |candidates|
      invariant AreStates(states, candidates, n) && m == states[n]
    {
      m := MergeOne(m, candidates[n]);
      StatesGrow(states, candidates, n, m);
      states := states + [m];
    }
    StatesArePass(states, candidates);
  }

  /** `memberships.get(id, 0)`. */
  function Count(memberships: map<Id, nat>, id: Id): nat {
    if id in memberships then memberships[id] else 0
  }

  /** The increments for one admitted record. */
  method CountIds(memberships: map<Id, nat>, ids: seq<Id>) returns (counted: map<Id, nat>)
    requires Distinct(ids)
    ensures forall id :: Count(counted, id) == Count(memberships, id) + if id in ids then 1 else 0
  {
    counted := memberships;
    DistinctMeans(ids);
    for k := 0 to |ids|
      invariant forall id :: Count(counted, id) == Count(memberships, id) + if id in ids[..k] then 1 else 0
    {
      assert ids[..k + 1] == ids[..k] + [ids[k]];
      counted := counted[ids[k] := Count(counted, ids[k]) + 1];
    }
    assert ids[..|ids|] == ids;
  }

  ghost predicate Counts(memberships: map<Id, nat>, bounded: seq<Item>) {
    forall id :: Count(memberships, id) == Memberships(bounded, id)
  }

  /** The body of the bounding loop. */
  method BoundOne(bounded: seq<Item>, memberships: map<Id, nat>, item: Item, limit: int)
    returns (longer: seq<Item>, counted: map<Id, nat>)
    requires Counts(memberships, bounded) && Distinct(item.ids)
    ensures longer == Bounded(bounded, item, limit) && Counts(counted, longer)
  {
    var open := set id | id in item.ids && Count(memberships, id) < limit;
    assert open == set id | id in item.ids && Memberships(bounded, id) < limit;
    var admissible := Filter(item.ids, open);
    FilterDistinct(item.ids, open);
    longer, counted := bounded, memberships;
    if admissible != [] {
      counted := CountIds(memberships, admissible);
      longer := bounded + [item.(ids := admissible)];
      forall id ensures Memberships(longer, id) == Memberships(bounded, id) + if id in admissible then 1 else 0 {
        MembershipsAppend(bounded, item.(ids := admissible), id);
      }
    }
  }

  /** The bounding loop over the merged records. */
  method BoundLoop(merged: seq<Item>, limit: int) returns (bounded: seq<Item>)
    requires UniqueIds(merged)
    ensures bounded == BoundPass(merged, |merged|, limit)
  {
    bounded := [];
    var memberships: map<Id, nat> := map[];
    for n := 0 to |merged|
      invariant bounded == BoundPass(merged, n, limit) && Counts(memberships, bounded)
    {
      bounded, memberships := BoundOne(bounded, memberships, merged[n], limit);
    }
  }

  /** `bounded` is what merging the records in this order and bounding the result gives; `cut` is what merging cut. */
  ghost predicate IsPass(items: seq<Item>, candidates: seq<Item>, states: seq<Merge>, limit: int, bounded: seq<Item>,
                         cut: set<Id>) {
    && IsSorted(candidates) && multiset(candidates) == multiset(items) && IsMergePass(states, candidates)
    && var m := states[|candidates|];
       bounded == BoundPass(m.merged, |m.merged|, limit) && cut == m.cut
  }

  /** An id of the input that is in no record afterwards stood past the sixth place of a merged record. */
  lemma LostIdsWereCut(items: seq<Item>, candidates: seq<Item>, states: seq<Merge>, limit: int, bounded: seq<Item>,
                       cut: set<Id>, id: Id)
    requires IsPass(items, candidates, states, limit, bounded, cut) && limit >= 1
    requires Holds(items, id) && Memberships(bounded, id) == 0
    ensures exists k: nat :: k < |candidates| && StepCuts(states[k].merged, candidates[k], id)
  {
    WholePass(items, candidates, states, limit, id);
    CutIdsArePastSixth(states, candidates, |candidates|, id);
  }

  /** Records of at most six ids each stay so. */
  lemma {:induction false} BoundedRecordsAreShort(merged: seq<Item>, n: nat, limit: int)
    requires n <= |merged| && forall i :: 0 <= i < |merged| ==> |merged[i].ids| <= MERGED_LIMIT
    ensures forall i :: 0 <= i < |BoundPass(merged, n, limit)| ==> |BoundPass(merged, n, limit)[i].ids| <= MERGED_LIMIT
  {
    if n > 0 {
      BoundedRecordsAreShort(merged, n - 1, limit);
      var item := merged[n - 1];
      FilterIsShorter(item.ids, set id | id in item.ids && Memberships(BoundPass(merged, n - 1, limit), id) < limit);
    }
  }

  lemma ShortRecordsStayShort(items: seq<Item>, candidates: seq<Item>, states: seq<Merge>, limit: int,
                              bounded: seq<Item>, cut: set<Id>)
    requires IsPass(items, candidates, states, limit, bounded, cut)
    requires forall i :: 0 <= i < |items| ==> |items[i].ids| <= MERGED_LIMIT
    ensures forall i :: 0 <= i < |bounded| ==> |bounded[i].ids| <= MERGED_LIMIT
  {
    var m := states[|candidates|];
    MergedRecordsAreShort(states, candidates, |candidates|);
    forall i | 0 <= i < |m.merged| ensures |m.merged[i].ids| <= MERGED_LIMIT {
      assert IsShort(m.merged[i], candidates);
      if m.merged[i] in candidates {
        assert m.merged[i] in multiset(candidates);
        assert m.merged[i] in items;
      }
    }
    BoundedRecordsAreShort(m.merged, |m.merged|, limit);
  }

  /** `merge_cross_handle_duplicates`, with the ids that a cut to six left out. */
  method MergeCrossHandleDuplicates(items: seq<Item>, limit: int)
    returns (bounded: seq<Item>, cut: set<Id>, ghost candidates: seq<Item>, ghost states: seq<Merge>)
    requires UniqueIds(items)
    ensures IsPass(items, candidates, states, limit, bounded, cut)
    ensures forall id :: Memberships(bounded, id) <= if limit < 0 then 0 else limit
    ensures forall id :: Memberships(bounded, id) >= 1 ==> Holds(items, id)
    ensures limit >= 1 ==> forall id :: Holds(items, id) ==> Memberships(bounded, id) >= 1 || id in cut
    ensures forall id :: id in cut ==> Holds(items, id)
    ensures forall i :: 0 <= i < |bounded| ==> bounded[i].ids != []
  {
    var sorted := Sort(items);
    candidates := sorted;
    SortedIsUnique(items, candidates);
    var m;
    m, states := MergeLoop(sorted);
    MergedRecordsAreUnique(states, candidates, |candidates|);
    bounded := BoundLoop(m.merged, limit);
    cut := m.cut;
    BoundedRecordsAreNotEmpty(m.merged, |m.merged|, limit);
    forall id
      ensures Memberships(bounded, id) <= if limit < 0 then 0 else limit
      ensures Memberships(bounded, id) >= 1 || id in cut ==> Holds(items, id)
      ensures limit >= 1 && Holds(items, id) ==> Memberships(bounded, id) >= 1 || id in cut
    {
      WholePass(items, candidates, states, limit, id);
    }
  }

  lemma WholePass(items: seq<Item>, candidates: seq<Item>, states: seq<Merge>, limit: int, id: Id)
    requires multiset(candidates) == multiset(items) && IsMergePass(states, candidates)
    ensures var m := states[|candidates|];
      var bounded := BoundPass(m.merged, |m.merged|, limit);
      && Memberships(bounded, id) <= (if limit < 0 then 0 else limit)
      && (Memberships(bounded, id) >= 1 || id in m.cut ==> Holds(items, id))
      && (limit >= 1 && Holds(items, id) ==> Memberships(bounded, id) >= 1 || id in m.cut)
  {
    var m := states[|candidates|];
    SameHolds(items, candidates, id);
    MergeInventsAndLosesNothing(states, candidates, |candidates|, id);
    BoundPassMemberships(m.merged, |m.merged|, limit, id);
    assert candidates[..|candidates|] == candidates && m.merged[..|m.merged|] == m.merged;
  }
}
