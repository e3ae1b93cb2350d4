/** Lists read from their last element, as they grow by appending. */
module Lists {
  predicate Distinct<T(==)>(s: seq<T>) {
    s == [] || (s[|s| - 1] !in s[..|s| - 1] && Distinct(s[..|s| - 1]))
  }

  function Elements<T(!new)>(s: seq<T>): (e: set<T>)
    ensures forall x :: x in e <==> x in s
  {
    set x | x in s
  }

  /** The entries of `s` that are in `keep`, in order. */
  function Filter<T(==,!new)>(s: seq<T>, keep: set<T>): (r: seq<T>)
    ensures forall x :: x in r <==> x in s && x in keep
  {
    if s == [] then []
    else
      var n := |s| - 1;
      assert s == s[..n] + [s[n]];
      if s[n] in keep then Filter(s[..n], keep) + [s[n]] else Filter(s[..n], keep)
  }

  lemma {:induction false} DistinctSize<T(!new)>(s: seq<T>)
    requires Distinct(s)
    ensures |Elements(s)| == |s|
  {
    if s != [] {
      var n := |s| - 1;
      DistinctSize(s[..n]);
      assert s == s[..n] + [s[n]];
      assert Elements(s) == Elements(s[..n]) + {s[n]};
    }
  }

  lemma {:induction false} DistinctMeans<T(!new)>(s: seq<T>)
    ensures Distinct(s) <==> forall i, j :: 0 <= i < j < |s| ==> s[i] != s[j]
  {
    if s != [] { DistinctMeans(s[..|s| - 1]); }
  }

  lemma DistinctAppend<T>(s: seq<T>, x: T)
    requires Distinct(s) && x !in s
    ensures Distinct(s + [x])
  {
    assert (s + [x])[..|s|] == s;
  }

  lemma {:induction false} DistinctConcat<T(!new)>(s: seq<T>, t: seq<T>)
    requires Distinct(s) && Distinct(t) && (forall x :: x in t ==> x !in s)
    ensures Distinct(s + t)
  {
    if t == [] {
      assert s + t == s;
    } else {
      var n := |t| - 1;
      assert t == t[..n] + [t[n]];
      DistinctConcat(s, t[..n]);
      assert s + t == (s + t[..n]) + [t[n]];
      DistinctAppend(s + t[..n], t[n]);
    }
  }

  lemma {:induction false} PrefixIsDistinct<T>(s: seq<T>, n: nat)
    requires Distinct(s) && n <= |s|
    ensures Distinct(s[..n])
  {
    if n < |s| {
      PrefixIsDistinct(s[..|s| - 1], n);
      assert s[..|s| - 1][..n] == s[..n];
    } else {
      assert s[..n] == s;
    }
  }

  /** `list(dict.fromkeys(s))`: the first occurrence of each entry. */
  function FirstOccurrences<T(==,!new)>(s: seq<T>): (r: seq<T>)
    ensures forall x :: x in r <==> x in s
    ensures Distinct(r)
  {
    if s == [] then []
    else
      var n := |s| - 1;
      assert s == s[..n] + [s[n]];
      var rest := FirstOccurrences(s[..n]);
      if s[n] in rest then rest else DistinctAppend(rest, s[n]); rest + [s[n]]
  }

  lemma FilterAppend<T(!new)>(s: seq<T>, x: T, keep: set<T>)
    ensures Filter(s + [x], keep) == Filter(s, keep) + if x in keep then [x] else []
  {
    assert (s + [x])[..|s|] == s;
  }

  lemma {:induction false} FilterConcat<T(!new)>(s: seq<T>, t: seq<T>, keep: set<T>)
    ensures Filter(s + t, keep) == Filter(s, keep) + Filter(t, keep)
  {
    if t == [] {
      assert s + t == s;
    } else {
      var n := |t| - 1;
      assert t == t[..n] + [t[n]];
      assert s + t == (s + t[..n]) + [t[n]];
      FilterConcat(s, t[..n], keep);
      FilterAppend(s + t[..n], t[n], keep);
      FilterAppend(t[..n], t[n], keep);
    }
  }

  lemma {:induction false} FilterIsShorter<T(!new)>(s: seq<T>, keep: set<T>)
    ensures |Filter(s, keep)| <= |s|
  {
    if s != [] { FilterIsShorter(s[..|s| - 1], keep); }
  }

  lemma {:induction false} FilterDistinct<T(!new)>(s: seq<T>, keep: set<T>)
    requires Distinct(s)
    ensures Distinct(Filter(s, keep))
  {
    if s != [] {
      var n := |s| - 1;
      FilterDistinct(s[..n], keep);
      if s[n] in keep { DistinctAppend(Filter(s[..n], keep), s[n]); }
    }
  }

  lemma {:induction false} FilterAll<T(!new)>(s: seq<T>, keep: set<T>)
    requires forall x :: x in s ==> x in keep
    ensures Filter(s, keep) == s
  {
    if s != [] {
      var n := |s| - 1;
      assert s == s[..n] + [s[n]];
      FilterAll(s[..n], keep);
    }
  }

  lemma {:induction false} FilterNone<T(!new)>(s: seq<T>, keep: set<T>)
    requires forall x :: x in s ==> x !in keep
    ensures Filter(s, keep) == []
  {
    if s != [] { FilterNone(s[..|s| - 1], keep); }
  }

  /** Two filters that agree on the entries of `s` give the same list. */
  lemma {:induction false} FilterAgree<T(!new)>(s: seq<T>, p: set<T>, q: set<T>)
    requires forall x :: x in s ==> (x in p <==> x in q)
    ensures Filter(s, p) == Filter(s, q)
  {
    if s != [] {
      var n := |s| - 1;
      assert s == s[..n] + [s[n]];
      FilterAgree(s[..n], p, q);
    }
  }

  lemma {:induction false} FilterSplit<T(!new)>(s: seq<T>, whole: set<T>, part: set<T>)
    requires part <= whole
    ensures |Filter(s, whole)| == |Filter(s, part)| + |Filter(s, whole - part)|
  {
    if s != [] { FilterSplit(s[..|s| - 1], whole, part); }
  }

  // ---------------------------------------------------------------- which entries are kept

  /** `r` lists the entries of `s` at the positions `at`, in the order of `s`. */
  ghost predicate Selects<T(!new)>(at: seq<nat>, s: seq<T>, r: seq<T>) {
    && |at| == |r| && (forall i, j :: 0 <= i < j < |at| ==> at[i] < at[j])
    && (forall j :: 0 <= j < |at| ==> at[j] < |s| && r[j] == s[at[j]])
  }

  lemma SelectsMore<T(!new)>(at: seq<nat>, s: seq<T>, r: seq<T>)
    requires s != [] && Selects(at, s[..|s| - 1], r)
    ensures Selects(at, s, r) && Selects(at + [|s| - 1], s, r + [s[|s| - 1]])
    ensures |s| - 1 !in at
  {
  }

  /** A filter keeps exactly the positions whose entries are wanted. */
  lemma {:induction false} FilterSelects<T(!new)>(s: seq<T>, keep: set<T>) returns (at: seq<nat>)
    ensures Selects(at, s, Filter(s, keep))
    ensures forall i :: 0 <= i < |s| ==> (i in at <==> s[i] in keep)
  {
    at := [];
    if s != [] {
      at := FilterSelects(s[..|s| - 1], keep);
      SelectsMore(at, s, Filter(s[..|s| - 1], keep));
      if s[|s| - 1] in keep { at := at + [|s| - 1]; }
    }
  }

  /** `at` holds exactly the positions whose entries stand nowhere before. */
  ghost predicate AreFirst<T(!new)>(at: seq<nat>, s: seq<T>) {
    forall i :: 0 <= i < |s| ==> (i in at <==> IsFirst(s, i))
  }

  predicate IsFirst<T(==)>(s: seq<T>, i: nat)
    requires i < |s|
  {
    s[i] !in s[..i]
  }

  lemma AreFirstStep<T(!new)>(at: seq<nat>, s: seq<T>)
    requires s != [] && AreFirst(at, s[..|s| - 1]) && |s| - 1 !in at
    ensures AreFirst(if IsFirst(s, |s| - 1) then at + [|s| - 1] else at, s)
  {
    var front := s[..|s| - 1];
    forall i: nat | i < |s| - 1 ensures IsFirst(s, i) <==> IsFirst(front, i) {
      assert front[..i] == s[..i];
    }
  }

  /** `r` is the part of `s` in `keep`, in the order of `s`. */
  ghost predicate IsPart<T(!new)>(s: seq<T>, keep: set<T>, r: seq<T>) {
    exists at :: Selects(at, s, r) && forall i :: 0 <= i < |s| ==> (i in at <==> s[i] in keep)
  }

  lemma FilterIsPart<T(!new)>(s: seq<T>, keep: set<T>)
    ensures IsPart(s, keep, Filter(s, keep))
  {
    var at := FilterSelects(s, keep);
  }

  /** The positions of the entries with a property. */
  function Positions<T(!new)>(s: seq<T>, p: T -> bool): set<nat> {
    set i: nat | i < |s| && p(s[i])
  }

  lemma PositionsStep<T(!new)>(s: seq<T>, p: T -> bool)
    requires s != []
    ensures Positions(s, p) == Positions(s[..|s| - 1], p) + if p(s[|s| - 1]) then {|s| - 1} else {}
    ensures |Positions(s, p)| == |Positions(s[..|s| - 1], p)| + if p(s[|s| - 1]) then 1 else 0
    ensures |s| - 1 !in Positions(s[..|s| - 1], p)
  {
    var n: nat := |s| - 1;
    var before, after := Positions(s[..n], p), Positions(s, p);
    forall i: nat ensures i in after <==> i in before || (i == n && p(s[n])) {}
    assert after == before + if p(s[n]) then {n} else {};
  }

  /** The sizes of the sets, added up. */
  function SizeSum<T>(sets: seq<set<T>>): nat {
    if sets == [] then 0 else SizeSum(sets[..|sets| - 1]) + |sets[|sets| - 1]|
  }

  /** The first occurrences are the entries that stand nowhere before, in order. */
  lemma {:induction false} FirstOccurrencesSelect<T(!new)>(s: seq<T>) returns (at: seq<nat>)
    ensures Selects(at, s, FirstOccurrences(s)) && AreFirst(at, s)
  {
    at := [];
    if s != [] {
      at := FirstOccurrencesSelect(s[..|s| - 1]);
      SelectsMore(at, s, FirstOccurrences(s[..|s| - 1]));
      AreFirstStep(at, s);
      if IsFirst(s, |s| - 1) { at := at + [|s| - 1]; }
    }
  }

  /** The union of the first `n` sets. */
  function Union<T>(sets: seq<set<T>>, n: nat): (all: set<T>)
    requires n <= |sets|
    ensures forall i :: 0 <= i < n ==> sets[i] <= all
  {
    if n == 0 then {} else Union(sets, n - 1) + sets[n - 1]
  }

  /** The first `n` positions. */
  function Below(n: nat): (s: set<nat>)
    ensures forall i: nat :: i in s <==> i < n
  {
    if n == 0 then {} else Below(n - 1) + {n - 1}
  }

  lemma {:induction false} BelowSize(n: nat)
    ensures |Below(n)| == n
  {
    if n > 0 { BelowSize(n - 1); }
  }

  lemma {:induction false} UnionMeans<T(!new)>(sets: seq<set<T>>, n: nat, x: T)
    requires n <= |sets|
    ensures x in Union(sets, n) <==> exists i :: 0 <= i < n && x in sets[i]
  {
    if n > 0 { UnionMeans(sets, n - 1, x); }
  }

  lemma AddedSize<T>(s: set<T>, x: T)
    requires x !in s
    ensures |s + {x}| == |s| + 1
  {
  }

  lemma SubsetSize<T>(a: set<T>, b: set<T>)
    requires a <= b
    ensures |a| <= |b|
    ensures |a| == |b| ==> a == b
  {
    assert b == a + (b - a);
  }
}
