/** Exact maximum gold coverage by at most `count` collections, and the brute-force form it must agree with.

    A selection is the increasing tuple of chosen collection indexes. A bit mask over the sorted gold
    turns is modelled as the set of gold turns it stands for.
*/
module BoundedCover {
  import opened Wrappers
  import Lists

  datatype Collection = Collection(name: string, turns: set<int>)

  /** A tuple of indexes, built by appending: `(*front, last)`. */
  datatype Tuple = Empty | Append(front: Tuple, last: nat)

  function Length(t: Tuple): nat {
    match t case Empty => 0 case Append(front, _) => Length(front) + 1
  }

  /** Increasing indexes below `n`. */
  predicate IsSelection(t: Tuple, n: nat) {
    match t case Empty => true case Append(front, last) => last < n && IsSelection(front, last)
  }

  lemma {:induction false} Widened(t: Tuple, m: nat, n: nat)
    requires IsSelection(t, m) && m <= n
    ensures IsSelection(t, n)
  {
  }

  function Turns(t: Tuple, collections: seq<Collection>): set<int>
    requires IsSelection(t, |collections|)
  {
    match t
    case Empty => {}
    case Append(front, last) =>
      Widened(front, last, |collections|);
      Turns(front, collections) + collections[last].turns
  }

  /** The gold turns of one collection. */
  function Mask(gold: set<int>, collections: seq<Collection>, i: nat): set<int>
    requires i < |collections|
  {
    collections[i].turns * gold
  }

  function Contamination(gold: set<int>, collections: seq<Collection>, i: nat): nat
    requires i < |collections|
  {
    |collections[i].turns - gold|
  }

  function Covered(t: Tuple, gold: set<int>, collections: seq<Collection>): set<int>
    requires IsSelection(t, |collections|)
  {
    match t
    case Empty => {}
    case Append(front, last) =>
      Widened(front, last, |collections|);
      Covered(front, gold, collections) + Mask(gold, collections, last)
  }

  /** Summed contamination: off-gold turns counted once per chosen collection. */
  function Cost(t: Tuple, gold: set<int>, collections: seq<Collection>): nat
    requires IsSelection(t, |collections|)
  {
    match t
    case Empty => 0
    case Append(front, last) =>
      Widened(front, last, |collections|);
      Cost(front, gold, collections) + Contamination(gold, collections, last)
  }

  /** Lexicographic order of tuples of one length. */
  predicate LexLess(a: Tuple, b: Tuple) {
    a.Append? && b.Append? && (LexLess(a.front, b.front) || (a.front == b.front && a.last < b.last))
  }

  /** What the final `max` compares: more coverage, then less cost, then fewer records, then index order. */
  datatype Rank = Rank(covered: nat, cost: nat, used: nat, selected: Tuple)

  predicate Before(a: Rank, b: Rank) {
    a.covered > b.covered || (a.covered == b.covered
      && (a.cost < b.cost || (a.cost == b.cost
        && (a.used < b.used || (a.used == b.used && LexLess(a.selected, b.selected))))))
  }

  function RankOf(t: Tuple, gold: set<int>, collections: seq<Collection>): Rank
    requires IsSelection(t, |collections|)
  {
    Rank(|Covered(t, gold, collections)|, Cost(t, gold, collections), Length(t), t)
  }

  /** No selection of at most `count` collections comes before `best`. */
  ghost predicate Optimal(best: Tuple, gold: set<int>, collections: seq<Collection>, count: nat) {
    && IsSelection(best, |collections|) && Length(best) <= count
    && forall t :: IsSelection(t, |collections|) && Length(t) <= count ==>
         !Before(RankOf(t, gold, collections), RankOf(best, gold, collections))
  }

  // ---------------------------------------------------------------- orders

  lemma {:induction false} LexTransitive(a: Tuple, b: Tuple, c: Tuple)
    requires LexLess(a, b) && LexLess(b, c)
    ensures LexLess(a, c)
  {
    if LexLess(a.front, b.front) && LexLess(b.front, c.front) { LexTransitive(a.front, b.front, c.front); }
  }

  lemma {:induction false} LexTotal(a: Tuple, b: Tuple)
    ensures !(LexLess(a, b) && LexLess(b, a))
    ensures !LexLess(a, a)
    ensures Length(a) == Length(b) ==> LexLess(a, b) || a == b || LexLess(b, a)
  {
    if a.Append? {
      LexTotal(a.front, a.front);
      if b.Append? { LexTotal(a.front, b.front); }
    }
  }

  lemma NotBeforeTransitive(a: Rank, b: Rank, c: Rank)
    requires a.used == Length(a.selected) && b.used == Length(b.selected) && c.used == Length(c.selected)
    requires !Before(b, a) && !Before(c, b)
    ensures !Before(c, a)
  {
    LexTotal(a.selected, b.selected);
    LexTotal(b.selected, c.selected);
    LexTotal(a.selected, c.selected);
    if LexLess(c.selected, a.selected) && LexLess(a.selected, b.selected) {
      LexTransitive(c.selected, a.selected, b.selected);
    }
    if LexLess(b.selected, c.selected) && LexLess(c.selected, a.selected) {
      LexTransitive(b.selected, c.selected, a.selected);
    }
  }

  /** The optimum is one tuple: two selections that nothing comes before are equal. */
  lemma OptimalIsUnique(a: Tuple, b: Tuple, gold: set<int>, collections: seq<Collection>, count: nat)
    requires Optimal(a, gold, collections, count) && Optimal(b, gold, collections, count)
    ensures a == b
  {
    LexTotal(a, b);
  }

  // ---------------------------------------------------------------- the dynamic program

  datatype Key = Key(used: nat, mask: set<int>)
  datatype Value = Value(cost: nat, selected: Tuple)

  /** `value < updated[key]`, a comparison of (cost, indexes) pairs under one key. */
  predicate Less(a: Value, b: Value) {
    a.cost < b.cost || (a.cost == b.cost && LexLess(a.selected, b.selected))
  }

  /** A selection of candidates below `bound`: collections that cover some gold turn. */
  predicate IsUseful(t: Tuple, gold: set<int>, collections: seq<Collection>, bound: nat)
    requires bound <= |collections|
  {
    match t
    case Empty => true
    case Append(front, last) =>
      last < bound && Mask(gold, collections, last) != {} && IsUseful(front, gold, collections, last)
  }

  lemma {:induction false} UsefulIsSelection(t: Tuple, gold: set<int>, collections: seq<Collection>, bound: nat)
    requires bound <= |collections| && IsUseful(t, gold, collections, bound)
    ensures IsSelection(t, bound) && IsSelection(t, |collections|)
  {
    if t.Append? { UsefulIsSelection(t.front, gold, collections, t.last); }
  }

  /** The entry records a selection below `bound` together with its own size, coverage and cost. */
  ghost predicate Entry(key: Key, value: Value, gold: set<int>, collections: seq<Collection>, count: nat, bound: nat) {
    && bound <= |collections|
    && IsSelection(value.selected, bound) && IsSelection(value.selected, |collections|)
    && key.used == Length(value.selected) <= count
    && key.mask == Covered(value.selected, gold, collections)
    && value.cost == Cost(value.selected, gold, collections)
  }

  ghost predicate Sound(states: map<Key, Value>, gold: set<int>, collections: seq<Collection>, count: nat, bound: nat) {
    forall key :: key in states ==> Entry(key, states[key], gold, collections, count, bound)
  }

  ghost predicate AtLeast(states: map<Key, Value>, key: Key, value: Value) {
    && key in states && Length(states[key].selected) == Length(value.selected)
    && !Less(value, states[key])
  }

  /** The state with the size and coverage of `t` holds a selection at least as good as `t`. */
  ghost predicate Represented(states: map<Key, Value>, t: Tuple, gold: set<int>, collections: seq<Collection>) {
    && IsSelection(t, |collections|)
    && AtLeast(states, Key(Length(t), Covered(t, gold, collections)), Value(Cost(t, gold, collections), t))
  }

  ghost predicate Complete(states: map<Key, Value>, gold: set<int>, collections: seq<Collection>, count: nat, bound: nat)
    requires bound <= |collections|
  {
    forall t :: IsUseful(t, gold, collections, bound) && Length(t) <= count ==>
      Represented(states, t, gold, collections)
  }

  ghost predicate Improves(updated: map<Key, Value>, states: map<Key, Value>) {
    forall key, v :: AtLeast(states, key, v) ==> AtLeast(updated, key, v)
  }

  function Extended(key: Key, mask: set<int>): Key {
    Key(key.used + 1, key.mask + mask)
  }

  function ExtendedValue(value: Value, i: nat, contamination: nat): Value {
    Value(value.cost + contamination, Append(value.selected, i))
  }

  lemma AtLeastTransitive(states: map<Key, Value>, key: Key, v: Value, w: Value)
    requires AtLeast(states, key, v) && !Less(w, v) && Length(w.selected) == Length(v.selected)
    ensures AtLeast(states, key, w)
  {
    var u := states[key];
    NotBeforeTransitive(Rank(0, u.cost, Length(u.selected), u.selected), Rank(0, v.cost, Length(v.selected), v.selected),
                        Rank(0, w.cost, Length(w.selected), w.selected));
  }

  lemma ReplacingImproves(states: map<Key, Value>, key: Key, value: Value)
    requires key !in states || (Less(value, states[key]) && Length(value.selected) == Length(states[key].selected))
    ensures Improves(states[key := value], states)
    ensures AtLeast(states[key := value], key, value)
  {
    LexTotal(value.selected, value.selected);
    forall v | AtLeast(states, key, v) ensures AtLeast(states[key := value], key, v) {
      LexTotal(value.selected, states[key].selected);
      AtLeastTransitive(states[key := value], key, states[key], v);
    }
  }

  ghost predicate Offered(updated: map<Key, Value>, states: map<Key, Value>, key: Key,
                          gold: set<int>, collections: seq<Collection>, count: nat, i: nat)
    requires i < |collections| && key in states
  {
    key.used < count ==>
      AtLeast(updated, Extended(key, Mask(gold, collections, i)),
              ExtendedValue(states[key], i, Contamination(gold, collections, i)))
  }

  /** The body of the inner loop: extend the selection at `key` by candidate `i`. */
  method OfferOne(states: map<Key, Value>, before: map<Key, Value>, key: Key,
                  gold: set<int>, collections: seq<Collection>, count: nat, i: nat)
    returns (updated: map<Key, Value>)
    requires i < |collections| && Sound(states, gold, collections, count, i) && key in states
    requires Sound(before, gold, collections, count, i + 1)
    ensures Sound(updated, gold, collections, count, i + 1)
    ensures Improves(updated, before)
    ensures Offered(updated, states, key, gold, collections, count, i)
  {
    updated := before;
    if key.used >= count { return; }
    var target := Extended(key, Mask(gold, collections, i));
    var value := ExtendedValue(states[key], i, Contamination(gold, collections, i));
    assert Entry(target, value, gold, collections, count, i + 1) by {
      assert Entry(key, states[key], gold, collections, count, i);
    }
    if target !in updated || Less(value, updated[target]) {
      ReplacingImproves(updated, target, value);
      updated := updated[target := value];
    }
  }

  /** One pass over `states` for candidate `i`. */
  method Offer(states: map<Key, Value>, gold: set<int>, collections: seq<Collection>, count: nat, i: nat)
    returns (updated: map<Key, Value>)
    requires i < |collections| && Sound(states, gold, collections, count, i)
    ensures Sound(updated, gold, collections, count, i + 1)
    ensures Improves(updated, states)
    ensures forall key :: key in states ==> Offered(updated, states, key, gold, collections, count, i)
  {
    updated := states;
    var todo := states.Keys;
    while todo != {}
      invariant todo <= states.Keys
      invariant Sound(updated, gold, collections, count, i + 1)
      invariant Improves(updated, states)
      invariant forall key :: key in states && key !in todo ==>
        Offered(updated, states, key, gold, collections, count, i)
      decreases todo
    {
      var key := Pick(todo);
      updated := OfferOne(states, updated, key, gold, collections, count, i);
      todo := todo - {key};
    }
  }

  lemma ExtendingKeepsOrder(v: Value, w: Value, i: nat, contamination: nat)
    requires Length(v.selected) == Length(w.selected) && !Less(w, v)
    ensures !Less(ExtendedValue(w, i, contamination), ExtendedValue(v, i, contamination))
  {
    LexTotal(v.selected, w.selected);
  }

  lemma LastCandidate(t: Tuple, updated: map<Key, Value>, states: map<Key, Value>,
                      gold: set<int>, collections: seq<Collection>, count: nat, i: nat)
    requires i < |collections| && IsSelection(t, i) && Length(t) < count && Represented(states, t, gold, collections)
    requires Offered(updated, states, Key(Length(t), Covered(t, gold, collections)), gold, collections, count, i)
    ensures Represented(updated, Append(t, i), gold, collections)
  {
    var key := Key(Length(t), Covered(t, gold, collections));
    var value := Value(Cost(t, gold, collections), t);
    var contamination := Contamination(gold, collections, i);
    var longer := ExtendedValue(value, i, contamination);
    ExtendingKeepsOrder(states[key], value, i, contamination);
    AtLeastTransitive(updated, Extended(key, Mask(gold, collections, i)),
                      ExtendedValue(states[key], i, contamination), longer);
    assert Covered(longer.selected, gold, collections) == key.mask + Mask(gold, collections, i);
    assert Cost(longer.selected, gold, collections) == longer.cost;
  }

  lemma StepIsComplete(updated: map<Key, Value>, states: map<Key, Value>,
                       gold: set<int>, collections: seq<Collection>, count: nat, i: nat)
    requires i < |collections| && Sound(states, gold, collections, count, i)
    requires Complete(states, gold, collections, count, i)
    requires Improves(updated, states)
    requires Mask(gold, collections, i) != {} ==>
      forall key :: key in states ==> Offered(updated, states, key, gold, collections, count, i)
    ensures Complete(updated, gold, collections, count, i + 1)
  {
    forall t | IsUseful(t, gold, collections, i + 1) && Length(t) <= count
      ensures Represented(updated, t, gold, collections)
    {
      if t.Append? && t.last == i {
        UsefulIsSelection(t.front, gold, collections, i);
        LastCandidate(t.front, updated, states, gold, collections, count, i);
      } else {
        assert IsUseful(t, gold, collections, i);
      }
    }
  }

  lemma {:induction false} UsefulWidened(t: Tuple, gold: set<int>, collections: seq<Collection>, m: nat, n: nat)
    requires m <= n <= |collections| && IsUseful(t, gold, collections, m)
    ensures IsUseful(t, gold, collections, n)
  {
  }

  /** Dropping collections that cover no gold turn keeps the coverage and is never worse. */
  lemma {:induction false} UsefulPart(t: Tuple, gold: set<int>, collections: seq<Collection>, bound: nat)
    returns (useful: Tuple)
    requires bound <= |collections| && IsSelection(t, bound) && IsSelection(t, |collections|)
    ensures IsUseful(useful, gold, collections, bound) && IsSelection(useful, |collections|)
    ensures Covered(useful, gold, collections) == Covered(t, gold, collections)
    ensures Cost(useful, gold, collections) <= Cost(t, gold, collections)
    ensures Length(useful) < Length(t) || useful == t
  {
    if t.Empty? { return t; }
    Widened(t.front, t.last, |collections|);
    useful := UsefulPart(t.front, gold, collections, t.last);
    UsefulIsSelection(useful, gold, collections, t.last);
    UsefulWidened(useful, gold, collections, t.last, bound);
    var mask := Mask(gold, collections, t.last);
    assert Covered(t, gold, collections) == Covered(useful, gold, collections) + mask;
    if mask != {} {
      useful := Append(useful, t.last);
    } else {
      assert Covered(t, gold, collections) == Covered(useful, gold, collections);
    }
  }

  function StateRank(states: map<Key, Value>, key: Key): Rank
    requires key in states
  {
    Rank(|key.mask|, states[key].cost, key.used, states[key].selected)
  }

  method BestState(states: map<Key, Value>, ghost gold: set<int>, ghost collections: seq<Collection>, ghost count: nat)
    returns (best: Key)
    requires states.Keys != {} && Sound(states, gold, collections, count, |collections|)
    ensures best in states
    ensures forall key :: key in states ==> !Before(StateRank(states, key), StateRank(states, best))
  {
    best := Pick(states.Keys);
    var todo := states.Keys;
    while todo != {}
      invariant best in states && todo <= states.Keys
      invariant forall key :: key in states && key !in todo ==> !Before(StateRank(states, key), StateRank(states, best))
      decreases todo
    {
      var key := Pick(todo);
      LexTotal(states[key].selected, states[best].selected);
      if Before(StateRank(states, key), StateRank(states, best)) {
        forall k | k in states && k !in todo ensures !Before(StateRank(states, k), StateRank(states, key)) {
          assert Entry(k, states[k], gold, collections, count, |collections|);
          assert Entry(key, states[key], gold, collections, count, |collections|);
          assert Entry(best, states[best], gold, collections, count, |collections|);
          NotBeforeTransitive(StateRank(states, key), StateRank(states, best), StateRank(states, k));
        }
        best := key;
      }
      todo := todo - {key};
    }
  }

  lemma BestStateIsOptimal(states: map<Key, Value>, best: Key,
                           gold: set<int>, collections: seq<Collection>, count: nat)
    requires Sound(states, gold, collections, count, |collections|)
    requires Complete(states, gold, collections, count, |collections|)
    requires best in states
    requires forall key :: key in states ==> !Before(StateRank(states, key), StateRank(states, best))
    ensures Optimal(states[best].selected, gold, collections, count)
  {
    assert Entry(best, states[best], gold, collections, count, |collections|);
    forall t | IsSelection(t, |collections|) && Length(t) <= count
      ensures !Before(RankOf(t, gold, collections), RankOf(states[best].selected, gold, collections))
    {
      var useful := UsefulPart(t, gold, collections, |collections|);
      var key := Key(Length(useful), Covered(useful, gold, collections));
      assert Represented(states, useful, gold, collections);
      assert Entry(key, states[key], gold, collections, count, |collections|);
      LexTotal(t, t);
      NotBeforeTransitive(StateRank(states, best), StateRank(states, key), RankOf(useful, gold, collections));
      NotBeforeTransitive(StateRank(states, best), RankOf(useful, gold, collections), RankOf(t, gold, collections));
    }
  }

  datatype Cover = Cover(selected: Tuple, turns: set<int>, recall: real)

  lemma NothingToCover(t: Tuple, gold: set<int>, collections: seq<Collection>)
    requires IsSelection(t, |collections|) && (gold == {} || collections == [])
    ensures Covered(t, gold, collections) == {}
  {
  }

  /** `None` stands for the `ValueError` on a count below one. */
  method BestBoundedCover(gold: set<int>, collections: seq<Collection>, count: int) returns (r: Option<Cover>)
    ensures r.None? <==> count < 1
    ensures r.Some? ==>
      && Optimal(r.value.selected, gold, collections, count)
      && r.value.turns == Covered(r.value.selected, gold, collections)
      && r.value.recall == if gold == {} then 0.0 else |r.value.turns| as real / |gold| as real
  {
    if count < 1 { return None; }
    if gold == {} || collections == [] {
      forall t | IsSelection(t, |collections|) ensures Covered(t, gold, collections) == {} {
        NothingToCover(t, gold, collections);
      }
      return Some(Cover(Empty, {}, 0.0));
    }
    var states := map[Key(0, {}) := Value(0, Empty)];
    for i := 0 to |collections|
      invariant Sound(states, gold, collections, count, i)
      invariant Complete(states, gold, collections, count, i)
    {
      if Mask(gold, collections, i) != {} {
        var updated := Offer(states, gold, collections, count, i);
        StepIsComplete(updated, states, gold, collections, count, i);
        states := updated;
      } else {
        StepIsComplete(states, states, gold, collections, count, i);
      }
    }
    assert Represented(states, Empty, gold, collections);
    var best := BestState(states, gold, collections, count);
    BestStateIsOptimal(states, best, gold, collections, count);
    assert Entry(best, states[best], gold, collections, count, |collections|);
    r := Some(Cover(states[best].selected, best.mask, |best.mask| as real / |gold| as real));
  }

  // ---------------------------------------------------------------- the brute-force twin

  function Appended(fronts: set<Tuple>, i: nat): set<Tuple> {
    set front | front in fronts :: Append(front, i)
  }

  /** All increasing `k`-tuples of indexes below `n`. */
  function Combinations(n: nat, k: nat): (all: set<Tuple>)
    ensures forall t :: t in all <==> IsSelection(t, n) && Length(t) == k
  {
    if k == 0 then {Empty}
    else if n == 0 then {}
    else Combinations(n - 1, k) + Appended(Combinations(n - 1, k - 1), n - 1)
  }

  /** The comparison key of the brute force: coverage, then fewer off-gold turns, then fewer turns. */
  function BruteKey(turns: set<int>, gold: set<int>): (int, int, int) {
    (|turns * gold|, -|turns - gold|, -|turns|)
  }

  predicate KeyLess(a: (int, int, int), b: (int, int, int)) {
    a.0 < b.0 || (a.0 == b.0 && (a.1 < b.1 || (a.1 == b.1 && a.2 < b.2)))
  }

  ghost predicate BruteOptimal(best: Tuple, gold: set<int>, collections: seq<Collection>, k: nat) {
    && IsSelection(best, |collections|) && Length(best) == k
    && forall t :: IsSelection(t, |collections|) && Length(t) == k ==>
         !KeyLess(BruteKey(Turns(best, collections), gold), BruteKey(Turns(t, collections), gold))
  }

  function GroupCount(count: int, n: nat): nat
    requires count >= 1
  {
    if count < n then count else n
  }

  /** The loop over the combinations, in any order. */
  method BestCombination(gold: set<int>, collections: seq<Collection>, k: nat) returns (best: Tuple)
    requires k <= |collections|
    ensures BruteOptimal(best, gold, collections, k)
  {
    var all := Combinations(|collections|, k);
    ghost var some := Grown(Empty, gold, collections, |collections|, k);
    assert some in all;
    best := Pick(all);
    var todo := all;
    while todo != {}
      invariant best in all && todo <= all
      invariant forall t :: t in all - todo ==>
        !KeyLess(BruteKey(Turns(best, collections), gold), BruteKey(Turns(t, collections), gold))
      decreases todo
    {
      var t := Pick(todo);
      if KeyLess(BruteKey(Turns(best, collections), gold), BruteKey(Turns(t, collections), gold)) { best := t; }
      todo := todo - {t};
    }
  }

  /** The best choice of exactly `min(count, |collections|)` groups; `None` is the `ValueError`. */
  method BestCover(gold: set<int>, collections: seq<Collection>, count: int) returns (r: Option<Cover>)
    ensures r.None? <==> count < 1
    ensures r.Some? ==>
      && BruteOptimal(r.value.selected, gold, collections, GroupCount(count, |collections|))
      && Length(r.value.selected) == (if count < |collections| then count else |collections|)
      && r.value.turns == Turns(r.value.selected, collections) * gold
      && r.value.recall == if gold == {} then 0.0 else |r.value.turns| as real / |gold| as real
  {
    if count < 1 { return None; }
    if collections == [] { return Some(Cover(Empty, {}, 0.0)); }
    var k := GroupCount(count, |collections|);
    var best := BestCombination(gold, collections, k);
    var covered := Turns(best, collections) * gold;
    r := Some(Cover(best, covered, if gold == {} then 0.0 else |covered| as real / |gold| as real));
  }

  /** A selection of at most `k` of the first `n` collections grows to exactly `k` without losing coverage. */
  lemma {:induction false} Grown(t: Tuple, gold: set<int>, collections: seq<Collection>, n: nat, k: nat)
    returns (grown: Tuple)
    requires n <= |collections| && IsSelection(t, n) && IsSelection(t, |collections|) && Length(t) <= k <= n
    ensures IsSelection(grown, n) && IsSelection(grown, |collections|) && Length(grown) == k
    ensures Covered(t, gold, collections) <= Covered(grown, gold, collections)
    decreases n
  {
    if Length(t) == k { return t; }
    if t.Append? && t.last == n - 1 {
      grown := Grown(t.front, gold, collections, n - 1, k - 1);
      grown := Append(grown, n - 1);
    } else if k < n {
      grown := Grown(t, gold, collections, n - 1, k);
    } else {
      SelectionLength(t, n - 1);
      grown := Grown(t, gold, collections, n - 1, k - 1);
      grown := Append(grown, n - 1);
    }
  }

  lemma {:induction false} SelectionLength(t: Tuple, n: nat)
    requires IsSelection(t, n)
    ensures Length(t) <= n
  {
    if t.Append? { SelectionLength(t.front, t.last); }
  }

  lemma {:induction false} CoveredIsGoldTurns(t: Tuple, gold: set<int>, collections: seq<Collection>)
    requires IsSelection(t, |collections|)
    ensures Covered(t, gold, collections) == Turns(t, collections) * gold
  {
    if t.Append? { CoveredIsGoldTurns(t.front, gold, collections); }
  }

  /** The dynamic program and the brute force agree on how many gold turns can be covered. */
  lemma BoundedCoverMatchesBruteForce(best: Tuple, brute: Tuple,
                                      gold: set<int>, collections: seq<Collection>, count: nat)
    requires count >= 1 && Optimal(best, gold, collections, count)
    requires BruteOptimal(brute, gold, collections, GroupCount(count, |collections|))
    ensures |Covered(best, gold, collections)| == |Turns(brute, collections) * gold|
  {
    SelectionLength(best, |collections|);
    var grown := Grown(best, gold, collections, |collections|, Length(brute));
    Lists.SubsetSize(Covered(best, gold, collections), Covered(grown, gold, collections));
    CoveredIsGoldTurns(grown, gold, collections);
    CoveredIsGoldTurns(brute, gold, collections);
    assert !Before(RankOf(brute, gold, collections), RankOf(best, gold, collections));
  }
}
