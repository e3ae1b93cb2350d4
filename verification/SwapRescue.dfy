/** Steepest-swap rescue of a selection, and when it is the best selection with so few replacements.

    Candidate ids are modelled by their rank in string order.
*/
module SwapRescue {
  import opened Wrappers
  import opened Lists
  import opened Sums

  type Id = nat

  /** The base score of a candidate, and what its score given the others adds or takes away. */
  datatype Example = Example(
    target: nat, baseline: seq<Id>, candidates: seq<Id>, base: Id -> real,
    redundancy: (Id, seq<Id>) -> real, temporal: (Id, seq<Id>) -> real, session: (Id, seq<Id>) -> real)

  datatype Config = Config(
    redundancyWeight: real, temporalWeight: real, sessionWeight: real, margin: real, maxReplacements: int)

  function ConditionalScore(ex: Example, id: Id, others: seq<Id>, config: Config): real {
    ex.base(id)
      - config.redundancyWeight * ex.redundancy(id, others)
      + config.temporalWeight * ex.temporal(id, others)
      + config.sessionWeight * ex.session(id, others)
  }

  /** Only base scores count. */
  predicate BaseOnly(config: Config) {
    config.redundancyWeight == 0.0 && config.temporalWeight == 0.0 && config.sessionWeight == 0.0
  }

  // ---------------------------------------------------------------- totals

  function Total(s: seq<Id>, base: Id -> real): real {
    if s == [] then 0.0 else Total(s[..|s| - 1], base) + base(s[|s| - 1])
  }

  lemma {:induction false} TotalSwap(s: seq<Id>, k: nat, id: Id, base: Id -> real)
    requires k < |s|
    ensures Total(s[k := id], base) == Total(s, base) - base(s[k]) + base(id)
  {
    var n := |s| - 1;
    if k == n {
      assert s[k := id][..n] == s[..n];
    } else {
      assert s[k := id][..n] == s[..n][k := id];
      TotalSwap(s[..n], k, id, base);
    }
  }

  /** `n` times `v`. */
  function Times(v: real, n: nat): real {
    if n == 0 then 0.0 else Times(v, n - 1) + v
  }

  /** A total of scores no lower than `low` is at least `low` times their number. */
  lemma {:induction false} SumFromBelow(s: set<Id>, base: Id -> real, low: real)
    requires forall id :: id in s ==> low <= base(id)
    ensures Times(low, |s|) <= Sum(s, base)
  {
    if s != {} {
      var id :| id in s;
      var rest := s - {id};
      SumFromBelow(rest, base, low);
      SumAdd(rest, id, base);
      assert s == rest + {id};
      AddedSize(rest, id);
    }
  }

  lemma {:induction false} SumFromAbove(s: set<Id>, base: Id -> real, high: real)
    requires forall id :: id in s ==> base(id) <= high
    ensures Sum(s, base) <= Times(high, |s|)
  {
    if s != {} {
      var id :| id in s;
      var rest := s - {id};
      SumFromAbove(rest, base, high);
      SumAdd(rest, id, base);
      assert s == rest + {id};
      AddedSize(rest, id);
    }
  }

  lemma {:induction false} TotalIsSum(s: seq<Id>, base: Id -> real)
    requires Distinct(s)
    ensures Total(s, base) == Sum(Elements(s), base)
  {
    if s != [] {
      var n := |s| - 1;
      TotalIsSum(s[..n], base);
      assert s == s[..n] + [s[n]];
      assert Elements(s) == Elements(s[..n]) + {s[n]};
      SumAdd(Elements(s[..n]), s[n], base);
    } else {
      assert Elements(s) == {};
    }
  }

  // ---------------------------------------------------------------- the exchange argument

  /** How the current selection arose from the start by best swaps: `high` and `low` are the last pair's scores. */
  ghost predicate Exchanged(start: set<Id>, now: set<Id>, all: set<Id>, base: Id -> real, high: real, low: real) {
    && start <= all && now <= all && |now| == |start| && low <= high
    && (forall id :: id in now - start ==> high <= base(id))
    && (forall id :: id in all - now - start ==> base(id) <= high)
    && (forall id :: id in start - now ==> base(id) <= low)
    && (forall id :: id in start * now ==> low <= base(id))
  }

  /** After a best swap that gains, the newcomer was never selected before and the leaver was there from the start. */
  lemma SwapExchanges(start: set<Id>, now: set<Id>, all: set<Id>, base: Id -> real, high: real, low: real,
                      incoming: Id, outgoing: Id)
    requires Exchanged(start, now, all, base, high, low)
    requires incoming in all - now && outgoing in now && base(incoming) > base(outgoing)
    requires forall id :: id in all - now ==> base(id) <= base(incoming)
    requires forall id :: id in now ==> base(outgoing) <= base(id)
    ensures incoming !in start && outgoing in start
    ensures Exchanged(start, now - {outgoing} + {incoming}, all, base, base(incoming), base(outgoing))
  {
    AddedSize(now - {outgoing}, incoming);
  }

  lemma SplitSize(s: set<Id>, t: set<Id>)
    ensures |s| == |s - t| + |s * t|
  {
    assert s == (s - t) + (s * t);
  }

  /** The pieces of two selections: what only `other` has, old or new, and what only `now` has, new or old. */
  lemma ExchangeSizes(start: set<Id>, now: set<Id>, other: set<Id>, limit: nat)
    requires |now| == |start| == |other| && |now - start| == limit && |other - start| <= limit
    ensures |other - now - start| + |(other - now) * start| == |now - start - other| + |now * start - other|
    ensures |other - now - start| <= |now - start - other|
  {
    SplitSize(other, now);
    SplitSize(now, other);
    assert other * now == now * other;
    SplitSize(other - now, start);
    SplitSize(now - other, start);
    assert now - other - start == now - start - other && (now - other) * start == now * start - other;
    SplitSize(other - start, now);
    SplitSize(now - start, other);
    assert (other - start) * now == (now - start) * other && other - start - now == other - now - start;
  }

  /** Trading lower scores for as many higher ones. */
  lemma {:induction false} Trade(high: real, low: real, newcomers: nat, returning: nat, newOnly: nat, oldOnly: nat)
    requires low <= high && newcomers + returning == newOnly + oldOnly && newcomers <= newOnly
    ensures Times(high, newcomers) + Times(low, returning) <= Times(high, newOnly) + Times(low, oldOnly)
    decreases newOnly
  {
    if newcomers < newOnly { Trade(high, low, newcomers, returning - 1, newOnly - 1, oldOnly); }
  }

  lemma SumOfPieces(s: set<Id>, t: set<Id>, start: set<Id>, base: Id -> real)
    ensures Sum(s, base) == Sum(s * t, base) + Sum(s - t - start, base) + Sum((s - t) * start, base)
  {
    SumUnion(s * t, s - t, base);
    assert s == (s * t) + (s - t);
    SumUnion(s - t - start, (s - t) * start, base);
    assert s - t == (s - t - start) + ((s - t) * start);
  }

  lemma SamePieces(start: set<Id>, now: set<Id>, other: set<Id>)
    ensures other * now == now * other
    ensures now - other - start == now - start - other && (now - other) * start == now * start - other
  {
  }

  /** The pieces of `other` weigh no more than those of `now`. */
  lemma PiecesCompare(start: set<Id>, now: set<Id>, other: set<Id>, all: set<Id>, base: Id -> real,
                      high: real, low: real, limit: nat)
    requires Exchanged(start, now, all, base, high, low) && other <= all
    requires |other| == |start| && |now - start| == limit && |other - start| <= limit
    ensures Sum(other - now - start, base) + Sum((other - now) * start, base)
         <= Sum(now - start - other, base) + Sum(now * start - other, base)
  {
    ExchangeSizes(start, now, other, limit);
    SumFromAbove(other - now - start, base, high);
    SumFromAbove((other - now) * start, base, low);
    SumFromBelow(now - start - other, base, high);
    SumFromBelow(now * start - other, base, low);
    Trade(high, low, |other - now - start|, |(other - now) * start|, |now - start - other|, |now * start - other|);
  }

  /** After `limit` best swaps no selection of that size with at most `limit` new ids has a higher total. */
  lemma ExhaustedIsOptimal(start: set<Id>, now: set<Id>, other: set<Id>, all: set<Id>, base: Id -> real,
                           high: real, low: real, limit: nat)
    requires Exchanged(start, now, all, base, high, low) && other <= all
    requires |other| == |start| && |now - start| == limit && |other - start| <= limit
    ensures Sum(other, base) <= Sum(now, base)
  {
    PiecesCompare(start, now, other, all, base, high, low, limit);
    SumOfPieces(other, now, start, base);
    SumOfPieces(now, other, start, base);
    SamePieces(start, now, other);
  }

  lemma OnlySizes(now: set<Id>, other: set<Id>)
    requires |other| == |now|
    ensures |other - now| == |now - other|
  {
    SplitSize(other, now);
    SplitSize(now, other);
    assert other * now == now * other;
  }

  lemma SumOfOnly(s: set<Id>, t: set<Id>, base: Id -> real)
    ensures Sum(s, base) == Sum(s * t, base) + Sum(s - t, base)
  {
    SumUnion(s * t, s - t, base);
    assert s == (s * t) + (s - t);
  }

  /** When no swap gains more than `margin`, each id that another selection of that size brings in adds that at most. */
  lemma StuckIsOptimal(now: set<Id>, other: set<Id>, all: set<Id>, base: Id -> real, margin: real)
    requires now <= all && other <= all && |other| == |now|
    requires forall x, y :: x in all - now && y in now ==> base(x) <= base(y) + margin
    ensures Sum(other, base) <= Sum(now, base) + Times(margin, |other - now|)
  {
    OnlySizes(now, other);
    SumOfOnly(other, now, base);
    SumOfOnly(now, other, base);
    assert other * now == now * other;
    SmallGain(other - now, now - other, base, margin);
  }

  lemma SmallGain(newcomers: set<Id>, leavers: set<Id>, base: Id -> real, margin: real)
    requires |newcomers| == |leavers|
    requires forall x, y :: x in newcomers && y in leavers ==> base(x) <= base(y) + margin
    ensures Sum(newcomers, base) <= Sum(leavers, base) + Times(margin, |newcomers|)
  {
    if leavers != {} {
      var pivot := Lowest(leavers, base);
      SumFromBelow(leavers, base, base(pivot));
      SumFromAbove(newcomers, base, base(pivot) + margin);
      TimesAdd(base(pivot), margin, |newcomers|);
    }
  }

  lemma {:induction false} TimesAdd(a: real, b: real, n: nat)
    ensures Times(a + b, n) == Times(a, n) + Times(b, n)
  {
    if n > 0 { TimesAdd(a, b, n - 1); }
  }

  lemma {:induction false} TimesZero(n: nat)
    ensures Times(0.0, n) == 0.0
  {
    if n > 0 { TimesZero(n - 1); }
  }

  lemma {:induction false} Lowest(s: set<Id>, base: Id -> real) returns (low: Id)
    requires s != {}
    ensures low in s && forall id :: id in s ==> base(low) <= base(id)
  {
    var one :| one in s;
    low := one;
    if s != {one} {
      var next := Lowest(s - {one}, base);
      if base(next) < base(one) { low := next; }
      forall id | id in s ensures base(low) <= base(id) { assert id == one || id in s - {one}; }
    }
  }

  // ---------------------------------------------------------------- the selection loop

  /** What every example provides: distinct candidates, and a baseline without repetition. */
  predicate WellFormed(ex: Example) {
    Distinct(ex.candidates) && Distinct(ex.baseline)
  }

  /** `remaining` order: higher base score first, then the smaller id. */
  predicate Before(base: Id -> real, a: Id, b: Id) {
    base(a) > base(b) || (base(a) == base(b) && a < b)
  }

  ghost predicate ByScore(s: seq<Id>, base: Id -> real) {
    forall i, j :: 0 <= i < j < |s| ==> Before(base, s[i], s[j])
  }

  lemma ByScoreIsDistinct(s: seq<Id>, base: Id -> real)
    requires ByScore(s, base)
    ensures Distinct(s)
  {
    forall i, j | 0 <= i < j < |s| ensures s[i] != s[j] { assert Before(base, s[i], s[j]); }
    DistinctMeans(s);
  }

  method InsertByScore(sorted: seq<Id>, id: Id, base: Id -> real) returns (longer: seq<Id>)
    requires id !in sorted && ByScore(sorted, base)
    ensures ByScore(longer, base) && forall x :: x in longer <==> x in sorted || x == id
  {
    var k := 0;
    while k < |sorted| && Before(base, sorted[k], id)
      invariant 0 <= k <= |sorted|
      invariant forall i :: 0 <= i < k ==> Before(base, sorted[i], id)
    {
      k := k + 1;
    }
    longer := sorted[..k] + [id] + sorted[k..];
    assert sorted == sorted[..k] + sorted[k..];
  }

  /** The unselected candidates, best base score first. */
  method Remaining(ex: Example, selected: seq<Id>) returns (sorted: seq<Id>)
    requires WellFormed(ex)
    ensures ByScore(sorted, ex.base) && forall x :: x in sorted <==> x in ex.candidates && x !in selected
  {
    sorted := [];
    DistinctMeans(ex.candidates);
    for c := 0 to |ex.candidates|
      invariant ByScore(sorted, ex.base) && forall x :: x in sorted <==> x in ex.candidates[..c] && x !in selected
    {
      var id := ex.candidates[c];
      assert ex.candidates[..c + 1] == ex.candidates[..c] + [id];
      if id !in selected { sorted := InsertByScore(sorted, id, ex.base); }
    }
    assert ex.candidates[..|ex.candidates|] == ex.candidates;
  }

  ghost predicate IsSelection(s: seq<Id>, ex: Example) {
    && Distinct(s) && Elements(s) <= Elements(ex.candidates)
    && |s| == if ex.target < |ex.candidates| then ex.target else |ex.candidates|
  }

  function Prefix(s: seq<Id>, n: nat): seq<Id> {
    if n < |s| then s[..n] else s
  }

  /** The baseline picks that are candidates, cut to the target. */
  function PicksOf(ex: Example): seq<Id> {
    Prefix(Filter(ex.baseline, Elements(ex.candidates)), ex.target)
  }

  /** The start set: the picks, then the best of the other candidates in falling order, up to the target. */
  ghost predicate IsStart(start: seq<Id>, ex: Example) {
    && IsSelection(start, ex) && PicksOf(ex) <= start
    && var fill := start[|PicksOf(ex)|..];
       && ByScore(fill, ex.base)
       && forall x, y :: x in fill && y in ex.candidates && y !in start ==> Before(ex.base, x, y)
  }

  lemma WithoutLast(s: seq<Id>, base: Id -> real)
    requires ByScore(s, base) && s != []
    ensures Elements(s[..|s| - 1]) == Elements(s) - {s[|s| - 1]}
  {
    ByScoreIsDistinct(s, base);
    assert s == s[..|s| - 1] + [s[|s| - 1]];
  }

  lemma SameLast(a: seq<Id>, b: seq<Id>, base: Id -> real)
    requires ByScore(a, base) && ByScore(b, base) && Elements(a) == Elements(b) && a != [] && b != []
    ensures a[|a| - 1] == b[|b| - 1]
  {
    assert a[|a| - 1] in Elements(b) && b[|b| - 1] in Elements(a);
  }

  lemma {:induction false} SortedIsUnique(a: seq<Id>, b: seq<Id>, base: Id -> real)
    requires ByScore(a, base) && ByScore(b, base) && Elements(a) == Elements(b)
    ensures a == b
  {
    if a == [] {
      ByScoreIsDistinct(b, base);
      DistinctSize(b);
      assert Elements(a) == {};
    } else {
      assert a[0] in Elements(b) && b != [];
      SameLast(a, b, base);
      WithoutLast(a, base);
      WithoutLast(b, base);
      SortedIsUnique(a[..|a| - 1], b[..|b| - 1], base);
      assert a == a[..|a| - 1] + [a[|a| - 1]] && b == b[..|b| - 1] + [b[|b| - 1]];
    }
  }

  /** The example fixes its start set. */
  lemma StartIsUnique(a: seq<Id>, b: seq<Id>, ex: Example)
    requires IsStart(a, ex) && IsStart(b, ex)
    ensures a == b
  {
    DistinctSize(a);
    DistinctSize(b);
    StartContains(a, b, ex);
    StartContains(b, a, ex);
    var n := |PicksOf(ex)|;
    FillIds(a, n);
    FillIds(b, n);
    SortedIsUnique(a[n..], b[n..], ex.base);
    assert a == a[..n] + a[n..] && b == b[..n] + b[n..];
  }

  lemma FillIds(s: seq<Id>, n: nat)
    requires Distinct(s) && n <= |s|
    ensures Elements(s[n..]) == Elements(s) - Elements(s[..n])
  {
    DistinctMeans(s);
    assert s == s[..n] + s[n..];
    forall x | x in s[n..] ensures x !in s[..n] {
      var j :| 0 <= j < |s[n..]| && s[n..][j] == x;
      assert s[n + j] == x;
    }
  }

  lemma StartPrefers(start: seq<Id>, x: Id, y: Id, ex: Example)
    requires IsStart(start, ex) && x in start && x !in PicksOf(ex) && y in ex.candidates && y !in start
    ensures Before(ex.base, x, y)
  {
    FillIds(start, |PicksOf(ex)|);
    assert x in Elements(start[|PicksOf(ex)|..]);
  }

  /** An id that only one start set has would stand before and after one that only the other has. */
  lemma StartContains(a: seq<Id>, b: seq<Id>, ex: Example)
    requires IsStart(a, ex) && IsStart(b, ex)
    requires |Elements(a)| == |Elements(b)|
    ensures Elements(a) <= Elements(b)
  {
    forall x | x in Elements(a) ensures x in Elements(b) {
      if x !in Elements(b) {
        OnlySizes(Elements(a), Elements(b));
        assert x in Elements(a) - Elements(b);
        var y :| y in Elements(b) - Elements(a);
        StartPrefers(a, x, y, ex);
        StartPrefers(b, y, x, ex);
        assert false;
      }
    }
  }

  method Picks(ex: Example) returns (selected: seq<Id>)
    requires WellFormed(ex)
    ensures selected == PicksOf(ex)
    ensures Distinct(selected) && Elements(selected) <= Elements(ex.candidates) && |selected| <= ex.target
    ensures |selected| <= |ex.candidates|
  {
    var picks := Filter(ex.baseline, Elements(ex.candidates));
    FilterDistinct(ex.baseline, Elements(ex.candidates));
    selected := Prefix(picks, ex.target);
    if ex.target < |picks| { PrefixIsDistinct(picks, ex.target); }
    DistinctSize(selected);
    DistinctSize(ex.candidates);
    SubsetSize(Elements(selected), Elements(ex.candidates));
  }

  /** The picks, filled up to the target with the best of the rest. */
  method Start(ex: Example) returns (selected: seq<Id>)
    requires WellFormed(ex)
    ensures IsStart(selected, ex)
  {
    selected := Picks(ex);
    if |selected| < ex.target {
      var remaining := Remaining(ex, selected);
      var fill := Prefix(remaining, ex.target - |selected|);
      ByScoreIsDistinct(remaining, ex.base);
      if |fill| < |remaining| { PrefixIsDistinct(remaining, |fill|); }
      RemainingSize(ex, selected, remaining);
      DistinctConcat(selected, fill);
      selected := selected + fill;
    }
  }

  lemma RemainingSize(ex: Example, selected: seq<Id>, remaining: seq<Id>)
    requires WellFormed(ex) && Distinct(selected) && Elements(selected) <= Elements(ex.candidates)
    requires Distinct(remaining) && forall x :: x in remaining <==> x in ex.candidates && x !in selected
    ensures |remaining| == |ex.candidates| - |selected|
  {
    DistinctSize(ex.candidates);
    DistinctSize(selected);
    DistinctSize(remaining);
    assert Elements(remaining) == Elements(ex.candidates) - Elements(selected);
  }

  // ---------------------------------------------------------------- swaps

  /** What replacing `outgoing` by `incoming` gains, both scored against the rest of the selection. */
  function Delta(ex: Example, config: Config, selected: seq<Id>, incoming: Id, outgoing: Id): real {
    var rest := Filter(selected, Elements(selected) - {outgoing});
    ConditionalScore(ex, incoming, rest, config) - ConditionalScore(ex, outgoing, rest, config)
  }

  lemma BaseOnlyDelta(ex: Example, config: Config, selected: seq<Id>, incoming: Id, outgoing: Id)
    requires BaseOnly(config)
    ensures Delta(ex, config, selected, incoming, outgoing) == ex.base(incoming) - ex.base(outgoing)
  {
  }

  datatype Swap = Swap(delta: real, incoming: Id, outgoing: Id)

  /** `candidate > best_swap`. */
  predicate Greater(a: Swap, b: Swap) {
    a.delta > b.delta || (a.delta == b.delta
      && (a.incoming > b.incoming || (a.incoming == b.incoming && a.outgoing > b.outgoing)))
  }

  /** The gain of every swap for the current selection. */
  type Gains = (Id, Id) -> real

  ghost predicate Offers(gain: Gains, candidates: seq<Id>, selected: seq<Id>, swap: Swap) {
    && swap.incoming in candidates && swap.incoming !in selected && swap.outgoing in selected
    && swap.delta == gain(swap.incoming, swap.outgoing)
  }

  method BestOutgoing(gain: Gains, candidates: seq<Id>, selected: seq<Id>, incoming: Id) returns (best: Option<Swap>)
    requires incoming in candidates && incoming !in selected
    ensures best.Some? ==> Offers(gain, candidates, selected, best.value)
    ensures forall y :: y in selected ==> best.Some? && !Greater(Swap(gain(incoming, y), incoming, y), best.value)
  {
    best := None;
    for k := 0 to |selected|
      invariant best.Some? ==> Offers(gain, candidates, selected, best.value)
      invariant forall j :: 0 <= j < k ==>
        best.Some? && !Greater(Swap(gain(incoming, selected[j]), incoming, selected[j]), best.value)
    {
      var swap := Swap(gain(incoming, selected[k]), incoming, selected[k]);
      if best.None? || Greater(swap, best.value) { best := Some(swap); }
    }
  }

  /** The greatest (gain, incoming, outgoing) over omitted candidates and selected ids. */
  method BestSwap(gain: Gains, candidates: seq<Id>, selected: seq<Id>) returns (best: Option<Swap>)
    ensures best.Some? ==> Offers(gain, candidates, selected, best.value)
    ensures forall x, y :: x in candidates && x !in selected && y in selected ==>
      best.Some? && !Greater(Swap(gain(x, y), x, y), best.value)
  {
    best := None;
    for c := 0 to |candidates|
      invariant best.Some? ==> Offers(gain, candidates, selected, best.value)
      invariant forall i, y :: 0 <= i < c && candidates[i] !in selected && y in selected ==>
        best.Some? && !Greater(Swap(gain(candidates[i], y), candidates[i], y), best.value)
    {
      if candidates[c] !in selected {
        var swap := BestOutgoing(gain, candidates, selected, candidates[c]);
        if swap.Some? && (best.None? || Greater(swap.value, best.value)) { best := swap; }
      }
    }
  }

  lemma {:induction false} ReplacedIds(s: seq<Id>, k: nat, id: Id)
    requires k < |s| && Distinct(s) && id !in s
    ensures Distinct(s[k := id]) && Elements(s[k := id]) == Elements(s) - {s[k]} + {id}
  {
    DistinctMeans(s);
    DistinctMeans(s[k := id]);
    forall x | x in Elements(s) - {s[k]} + {id} ensures x in s[k := id] {
      if x == id {
        assert s[k := id][k] == id;
      } else {
        var j :| 0 <= j < |s| && s[j] == x;
        assert s[k := id][j] == x;
      }
    }
  }

  method Replace(selected: seq<Id>, swap: Swap) returns (replaced: seq<Id>, k: nat)
    requires Distinct(selected) && swap.outgoing in selected && swap.incoming !in selected
    ensures k < |selected| && selected[k] == swap.outgoing && replaced == selected[k := swap.incoming]
    ensures Distinct(replaced) && Elements(replaced) == Elements(selected) - {swap.outgoing} + {swap.incoming}
  {
    k := 0;
    while selected[k] != swap.outgoing
      invariant k < |selected| && swap.outgoing !in selected[..k]
      decreases |selected| - k
    {
      assert selected == selected[..k + 1] + selected[k + 1..];
      k := k + 1;
    }
    replaced := selected[k := swap.incoming];
    ReplacedIds(selected, k, swap.incoming);
  }

  /** What `swaps` best swaps have led to when only base scores count. */
  ghost predicate Climbed(start: seq<Id>, selected: seq<Id>, ex: Example, margin: real, swaps: nat, high: real, low: real) {
    && Total(selected, ex.base) >= Total(start, ex.base) + Times(margin, swaps)
    && (swaps > 0 ==> Total(selected, ex.base) > Total(start, ex.base) + Times(margin, swaps))
    && (margin >= 0.0 ==>
          && Exchanged(Elements(start), Elements(selected), Elements(ex.candidates), ex.base, high, low)
          && |Elements(selected) - Elements(start)| == swaps)
  }

  lemma SwapClimbs(start: seq<Id>, selected: seq<Id>, ex: Example, margin: real, swaps: nat, high: real, low: real,
                   incoming: Id, k: nat)
    requires Distinct(selected) && Climbed(start, selected, ex, margin, swaps, high, low)
    requires k < |selected| && incoming in ex.candidates && incoming !in selected
    requires ex.base(incoming) - ex.base(selected[k]) > margin
    requires forall x :: x in ex.candidates && x !in selected ==> ex.base(x) <= ex.base(incoming)
    requires forall y :: y in selected ==> ex.base(selected[k]) <= ex.base(y)
    ensures Climbed(start, selected[k := incoming], ex, margin, swaps + 1, ex.base(incoming), ex.base(selected[k]))
  {
    TotalSwap(selected, k, incoming, ex.base);
    ReplacedIds(selected, k, incoming);
    if margin >= 0.0 {
      var now, old_ := Elements(selected), Elements(start);
      SwapExchanges(old_, now, Elements(ex.candidates), ex.base, high, low, incoming, selected[k]);
      NewIds(old_, now, incoming, selected[k]);
    }
  }

  lemma NewIds(start: set<Id>, now: set<Id>, incoming: Id, outgoing: Id)
    requires incoming !in now
    ensures |(now - {outgoing} + {incoming}) - start| <= |now - start| + 1
    ensures outgoing in start && incoming !in start ==>
      |(now - {outgoing} + {incoming}) - start| == |now - start| + 1
  {
    var before, after := now - start, (now - {outgoing} + {incoming}) - start;
    AddedSize(before, incoming);
    SubsetSize(after, before + {incoming});
    if outgoing in start && incoming !in start { assert after == before + {incoming}; }
  }

  // ---------------------------------------------------------------- the rescue

  /** No selection of this size with at most `limit` ids new to `start` has a higher base total. */
  ghost predicate BestWithin(selected: seq<Id>, start: seq<Id>, ex: Example, limit: nat) {
    forall other: set<Id> ::
      other <= Elements(ex.candidates) && |other| == |start| && |other - Elements(start)| <= limit ==>
        Sum(other, ex.base) <= Total(selected, ex.base)
  }

  lemma ScoreRange(s: set<Id>, base: Id -> real) returns (low: real, high: real)
    ensures low <= high && forall id :: id in s ==> low <= base(id) <= high
  {
    low, high := 0.0, 0.0;
    if s != {} {
      var id :| id in s;
      low, high := ScoreRange(s - {id}, base);
      if base(id) < low { low := base(id); }
      if base(id) > high { high := base(id); }
      forall x | x in s ensures low <= base(x) <= high { assert x == id || x in s - {id}; }
    }
  }

  lemma StartClimbs(start: seq<Id>, ex: Example, margin: real) returns (high: real, low: real)
    requires IsSelection(start, ex)
    ensures Climbed(start, start, ex, margin, 0, high, low)
  {
    low, high := ScoreRange(Elements(ex.candidates), ex.base);
    assert Elements(start) - Elements(start) == {};
  }

  lemma AllSwapsTaken(start: seq<Id>, selected: seq<Id>, ex: Example, margin: real, limit: nat, high: real, low: real)
    requires Distinct(selected) && Distinct(start) && |selected| == |start| && margin >= 0.0
    requires Climbed(start, selected, ex, margin, limit, high, low)
    ensures BestWithin(selected, start, ex, limit)
  {
    TotalIsSum(selected, ex.base);
    DistinctSize(start);
    forall other: set<Id> | other <= Elements(ex.candidates) && |other| == |start| && |other - Elements(start)| <= limit
      ensures Sum(other, ex.base) <= Total(selected, ex.base)
    {
      ExhaustedIsOptimal(Elements(start), Elements(selected), other, Elements(ex.candidates), ex.base, high, low, limit);
    }
  }

  /** No selection of this size has a higher base total by more than `margin` for each id it brings in. */
  ghost predicate NearlyBest(selected: seq<Id>, ex: Example, margin: real) {
    forall other: set<Id> ::
      other <= Elements(ex.candidates) && |other| == |selected| ==>
        Sum(other, ex.base) <= Total(selected, ex.base) + Times(margin, |other - Elements(selected)|)
  }

  lemma NoSwapGains(selected: seq<Id>, ex: Example, margin: real)
    requires Distinct(selected) && Elements(selected) <= Elements(ex.candidates)
    requires forall x, y :: x in ex.candidates && x !in selected && y in selected ==> ex.base(x) <= ex.base(y) + margin
    ensures NearlyBest(selected, ex, margin)
  {
    TotalIsSum(selected, ex.base);
    DistinctSize(selected);
    forall other: set<Id> | other <= Elements(ex.candidates) && |other| == |selected|
      ensures Sum(other, ex.base) <= Total(selected, ex.base) + Times(margin, |other - Elements(selected)|)
    {
      StuckIsOptimal(Elements(selected), other, Elements(ex.candidates), ex.base, margin);
    }
  }

  /** With margin zero that is the best selection of all. */
  lemma NearlyBestIsBest(selected: seq<Id>, start: seq<Id>, ex: Example, limit: nat)
    requires NearlyBest(selected, ex, 0.0) && |selected| == |start|
    ensures BestWithin(selected, start, ex, limit)
  {
    forall other: set<Id> | other <= Elements(ex.candidates) && |other| == |start| && |other - Elements(start)| <= limit
      ensures Sum(other, ex.base) <= Total(selected, ex.base)
    {
      TimesZero(|other - Elements(selected)|);
    }
  }

  /** What the loop keeps after `swaps` swaps. */
  ghost predicate Rescued(start: seq<Id>, selected: seq<Id>, ex: Example, config: Config, swaps: nat, high: real, low: real) {
    && IsSelection(selected, ex) && |selected| == |start|
    && |Elements(selected) - Elements(start)| <= swaps
    && (BaseOnly(config) ==> Climbed(start, selected, ex, config.margin, swaps, high, low))
  }

  function GainsOf(ex: Example, config: Config, selected: seq<Id>): Gains {
    (x: Id, y: Id) => Delta(ex, config, selected, x, y)
  }

  lemma BaseGains(ex: Example, config: Config, selected: seq<Id>, swap: Swap)
    requires BaseOnly(config) && Offers(GainsOf(ex, config, selected), ex.candidates, selected, swap)
    requires forall x, y :: x in ex.candidates && x !in selected && y in selected ==>
      !Greater(Swap(GainsOf(ex, config, selected)(x, y), x, y), swap)
    ensures swap.delta == ex.base(swap.incoming) - ex.base(swap.outgoing)
    ensures forall x :: x in ex.candidates && x !in selected ==> ex.base(x) <= ex.base(swap.incoming)
    ensures forall y :: y in selected ==> ex.base(swap.outgoing) <= ex.base(y)
  {
    BaseOnlyDelta(ex, config, selected, swap.incoming, swap.outgoing);
    forall x | x in ex.candidates && x !in selected ensures ex.base(x) <= ex.base(swap.incoming) {
      assert !Greater(Swap(GainsOf(ex, config, selected)(x, swap.outgoing), x, swap.outgoing), swap);
      BaseOnlyDelta(ex, config, selected, x, swap.outgoing);
    }
    forall y | y in selected ensures ex.base(swap.outgoing) <= ex.base(y) {
      assert !Greater(Swap(GainsOf(ex, config, selected)(swap.incoming, y), swap.incoming, y), swap);
      BaseOnlyDelta(ex, config, selected, swap.incoming, y);
    }
  }

  /** The greatest (gain, incoming, outgoing) on offer, and it gains more than the margin. */
  ghost predicate IsBestSwap(ex: Example, config: Config, selected: seq<Id>, swap: Swap) {
    && Offers(GainsOf(ex, config, selected), ex.candidates, selected, swap) && swap.delta > config.margin
    && forall x, y :: x in ex.candidates && x !in selected && y in selected ==>
         !Greater(Swap(Delta(ex, config, selected, x, y), x, y), swap)
  }

  ghost predicate IsReplaced(before: seq<Id>, swap: Swap, after: seq<Id>) {
    && |after| == |before|
    && forall i :: 0 <= i < |before| ==>
         after[i] == if before[i] == swap.outgoing then swap.incoming else before[i]
  }

  /** One round of the loop that swaps. */
  ghost predicate IsRound(ex: Example, config: Config, before: seq<Id>, after: seq<Id>) {
    exists swap :: IsBestSwap(ex, config, before, swap) && IsReplaced(before, swap, after)
  }

  /** A round leaves no choice. */
  lemma RoundIsUnique(ex: Example, config: Config, before: seq<Id>, a: seq<Id>, b: seq<Id>)
    requires IsRound(ex, config, before, a) && IsRound(ex, config, before, b)
    ensures a == b
  {
    var x :| IsBestSwap(ex, config, before, x) && IsReplaced(before, x, a);
    var y :| IsBestSwap(ex, config, before, y) && IsReplaced(before, y, b);
    assert !Greater(x, y) && !Greater(y, x);
  }

  /** The selections the loop goes through. */
  ghost predicate IsRun(ex: Example, config: Config, run: seq<seq<Id>>) {
    run != [] && forall i :: 0 <= i < |run| - 1 ==> IsRound(ex, config, run[i], run[i + 1])
  }

  /** No swap gains more than the margin. */
  ghost predicate IsSettled(ex: Example, config: Config, selected: seq<Id>) {
    forall x, y :: x in ex.candidates && x !in selected && y in selected ==>
      Delta(ex, config, selected, x, y) <= config.margin
  }

  lemma RunExtends(ex: Example, config: Config, run: seq<seq<Id>>, next: seq<Id>)
    requires IsRun(ex, config, run) && IsRound(ex, config, run[|run| - 1], next)
    ensures IsRun(ex, config, run + [next])
  {
    var longer := run + [next];
    forall i | 0 <= i < |longer| - 1 ensures IsRound(ex, config, longer[i], longer[i + 1]) {
      assert i < |run| - 1 ==> IsRound(ex, config, run[i], run[i + 1]);
    }
  }

  lemma RoundIsDone(ex: Example, config: Config, before: seq<Id>, swap: Swap, k: nat)
    requires Distinct(before) && k < |before| && before[k] == swap.outgoing && IsBestSwap(ex, config, before, swap)
    ensures IsRound(ex, config, before, before[k := swap.incoming])
  {
    DistinctMeans(before);
    assert IsReplaced(before, swap, before[k := swap.incoming]);
  }

  /** With base scores, settled means that no outsider scores higher than a selected id by more than the margin. */
  lemma SettledBase(ex: Example, config: Config, selected: seq<Id>)
    requires BaseOnly(config) && IsSettled(ex, config, selected)
    ensures forall x, y :: x in ex.candidates && x !in selected && y in selected ==>
      ex.base(x) <= ex.base(y) + config.margin
  {
    forall x, y | x in ex.candidates && x !in selected && y in selected ensures ex.base(x) <= ex.base(y) + config.margin {
      assert Delta(ex, config, selected, x, y) <= config.margin;
      BaseOnlyDelta(ex, config, selected, x, y);
    }
  }

  /** The best swap, if it gains more than the margin. */
  method FindSwap(ex: Example, config: Config, selected: seq<Id>) returns (swap: Option<Swap>)
    ensures swap.Some? ==> IsBestSwap(ex, config, selected, swap.value)
    ensures swap.None? ==> IsSettled(ex, config, selected)
  {
    var gains := GainsOf(ex, config, selected);
    swap := BestSwap(gains, ex.candidates, selected);
    forall x, y | x in ex.candidates && x !in selected && y in selected
      ensures swap.Some? && !Greater(Swap(Delta(ex, config, selected, x, y), x, y), swap.value)
    {
      assert !Greater(Swap(gains(x, y), x, y), swap.value);
    }
    if swap.Some? && swap.value.delta <= config.margin { swap := None; }
  }

  lemma SwapRescues(start: seq<Id>, selected: seq<Id>, ex: Example, config: Config, swaps: nat, high: real, low: real,
                    swap: Swap, k: nat)
    requires Rescued(start, selected, ex, config, swaps, high, low) && IsBestSwap(ex, config, selected, swap)
    requires k < |selected| && selected[k] == swap.outgoing
    ensures Rescued(start, selected[k := swap.incoming], ex, config, swaps + 1,
                    ex.base(swap.incoming), ex.base(swap.outgoing))
  {
    ReplacedIds(selected, k, swap.incoming);
    NewIds(Elements(start), Elements(selected), swap.incoming, swap.outgoing);
    if BaseOnly(config) {
      BaseGains(ex, config, selected, swap);
      SwapClimbs(start, selected, ex, config.margin, swaps, high, low, swap.incoming, k);
    }
  }

  function Limit(config: Config): nat {
    if config.maxReplacements < 0 then 0 else config.maxReplacements
  }

  /** Everything the loop keeps: what `swaps` swaps have led to, and by which run. */
  ghost predicate Progress(start: seq<Id>, selected: seq<Id>, ex: Example, config: Config, swaps: nat,
                           run: seq<seq<Id>>, high: real, low: real) {
    && swaps <= Limit(config) && Rescued(start, selected, ex, config, swaps, high, low)
    && IsRun(ex, config, run) && |run| == swaps + 1 && run[0] == start && run[swaps] == selected
  }

  lemma ProgressStep(start: seq<Id>, selected: seq<Id>, ex: Example, config: Config, swaps: nat,
                     run: seq<seq<Id>>, high: real, low: real, swap: Swap, k: nat)
    requires Progress(start, selected, ex, config, swaps, run, high, low) && swaps < Limit(config)
    requires IsBestSwap(ex, config, selected, swap) && k < |selected| && selected[k] == swap.outgoing
    ensures Progress(start, selected[k := swap.incoming], ex, config, swaps + 1, run + [selected[k := swap.incoming]],
                     ex.base(swap.incoming), ex.base(swap.outgoing))
  {
    SwapRescues(start, selected, ex, config, swaps, high, low, swap, k);
    RoundIsDone(ex, config, selected, swap, k);
    RunExtends(ex, config, run, selected[k := swap.incoming]);
  }

  method SwapOnce(start: seq<Id>, selected: seq<Id>, ex: Example, config: Config, ghost swaps: nat,
                  ghost run: seq<seq<Id>>, ghost high: real, ghost low: real, swap: Swap)
    returns (next: seq<Id>, ghost run': seq<seq<Id>>, ghost high': real, ghost low': real)
    requires Progress(start, selected, ex, config, swaps, run, high, low) && swaps < Limit(config)
    requires IsBestSwap(ex, config, selected, swap)
    ensures Progress(start, next, ex, config, swaps + 1, run', high', low')
  {
    var k;
    next, k := Replace(selected, swap);
    ProgressStep(start, selected, ex, config, swaps, run, high, low, swap, k);
    run', high', low' := run + [next], ex.base(swap.incoming), ex.base(swap.outgoing);
  }

  lemma ProgressStarts(start: seq<Id>, ex: Example, config: Config) returns (high: real, low: real)
    requires IsSelection(start, ex)
    ensures Progress(start, start, ex, config, 0, [start], high, low)
  {
    high, low := StartClimbs(start, ex, config.margin);
    assert Elements(start) - Elements(start) == {};
  }

  /** With base scores, how good the end is: best within reach after all swaps, nearly best when settled. */
  lemma EndIsBest(start: seq<Id>, selected: seq<Id>, ex: Example, config: Config, swaps: nat,
                  run: seq<seq<Id>>, high: real, low: real)
    requires IsSelection(start, ex) && BaseOnly(config)
    requires Progress(start, selected, ex, config, swaps, run, high, low)
    ensures swaps == Limit(config) && config.margin >= 0.0 ==> BestWithin(selected, start, ex, Limit(config))
    ensures IsSettled(ex, config, selected) ==> NearlyBest(selected, ex, config.margin)
  {
    if swaps == Limit(config) && config.margin >= 0.0 {
      AllSwapsTaken(start, selected, ex, config.margin, Limit(config), high, low);
    }
    if IsSettled(ex, config, selected) {
      SettledBase(ex, config, selected);
      NoSwapGains(selected, ex, config.margin);
    }
  }

  /** The rescue loop: at most `maxReplacements` best swaps, each gaining more than the margin. */
  method Rescue(start: seq<Id>, ex: Example, config: Config)
    returns (selected: seq<Id>, swaps: nat, ghost run: seq<seq<Id>>, ghost high: real, ghost low: real)
    requires IsSelection(start, ex)
    ensures Progress(start, selected, ex, config, swaps, run, high, low)
    ensures swaps == Limit(config) || IsSettled(ex, config, selected)
  {
    selected, swaps, run := start, 0, [start];
    high, low := ProgressStarts(start, ex, config);
    while swaps < Limit(config)
      invariant Progress(start, selected, ex, config, swaps, run, high, low)
    {
      var swap := FindSwap(ex, config, selected);
      if swap.None? { return; }
      selected, run, high, low := SwapOnce(start, selected, ex, config, swaps, run, high, low, swap.value);
      swaps := swaps + 1;
    }
  }

  /** `rescue_selection`, with the start set, the number of swaps it took and the selections on the way. */
  method RescueSelection(ex: Example, config: Config)
    returns (selected: seq<Id>, start: seq<Id>, swaps: nat, ghost run: seq<seq<Id>>)
    requires WellFormed(ex)
    ensures IsStart(start, ex) && IsSelection(selected, ex)
    ensures IsRun(ex, config, run) && |run| == swaps + 1 && run[0] == start && run[swaps] == selected
    ensures swaps < Limit(config) ==> IsSettled(ex, config, selected)
    ensures swaps <= Limit(config) && |Elements(selected) - Elements(start)| <= swaps
    ensures BaseOnly(config) && config.margin == 0.0 ==> BestWithin(selected, start, ex, Limit(config))
    ensures BaseOnly(config) && config.margin >= 0.0 && swaps == Limit(config) ==>
      BestWithin(selected, start, ex, Limit(config))
    ensures BaseOnly(config) && swaps < Limit(config) ==> NearlyBest(selected, ex, config.margin)
    ensures BaseOnly(config) ==>
      Total(selected, ex.base) >= Total(start, ex.base) + Times(config.margin, swaps)
    ensures BaseOnly(config) && swaps > 0 ==>
      Total(selected, ex.base) > Total(start, ex.base) + Times(config.margin, swaps)
  {
    start := Start(ex);
    ghost var high, low;
    selected, swaps, run, high, low := Rescue(start, ex, config);
    if BaseOnly(config) {
      EndIsBest(start, selected, ex, config, swaps, run, high, low);
      if swaps < Limit(config) && config.margin == 0.0 { NearlyBestIsBest(selected, start, ex, Limit(config)); }
    }
  }
}
