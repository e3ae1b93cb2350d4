/** Even-spread trimming: keep `m` of `n` items at the rounded positions i * (n - 1) / (m - 1). */
module EvenSpread {
  import opened Arithmetic

  /** Python's `round(a / b)` for a >= 0 and b > 0: to the nearest integer, halves to the even one. */
  function RoundHalfEven(a: nat, b: nat): (r: nat)
    requires b > 0
  {
    var q, rest := a / b, a % b;
    if 2 * rest < b || (2 * rest == b && q % 2 == 0) then q else q + 1
  }

  lemma RoundingError(a: nat, b: nat)
    requires b > 0
    ensures 2 * a - b <= 2 * (b * RoundHalfEven(a, b)) <= 2 * a + b
  {
    var q, rest := a / b, a % b;
    assert a == b * q + rest;
    assert b * (q + 1) == b * q + b;
  }

  /** `r` is an integer nearest to `a / b`, and the even one of two. */
  ghost predicate IsNearest(a: int, b: int, r: int) {
    && -b <= 2 * (b * r - a) <= b
    && (2 * (b * r - a) == b || 2 * (a - b * r) == b ==> r % 2 == 0)
  }

  lemma RoundIsNearest(a: nat, b: nat)
    requires b > 0
    ensures IsNearest(a, b, RoundHalfEven(a, b))
  {
    var q, rest := a / b, a % b;
    assert a == b * q + rest;
    assert b * (q + 1) == b * q + b;
  }

  /** Nothing else is nearest. */
  lemma NearestIsUnique(a: int, b: int, r: int, s: int)
    requires b > 0 && IsNearest(a, b, r) && IsNearest(a, b, s) && r <= s
    ensures r == s
  {
    if r < s {
      OneStep(b, r, s);
    }
  }

  lemma OneStep(b: int, r: int, s: int)
    requires b > 0 && r < s && b * s - b * r <= b
    ensures s == r + 1 && b * s == b * r + b
  {
    assert b * (r + 2) == b * r + 2 * b && b * (r + 1) == b * r + b;
    if s > r + 1 { MulMonotone(b, r + 2, s); }
  }

  /** The position an even spread of `m` over `n` takes for `i`: the nearest to i * (n - 1) / (m - 1). */
  ghost predicate IsSpreadAt(i: nat, n: nat, m: nat, p: nat) {
    if m == 1 then p == 0 else IsNearest(i * (n - 1), m - 1, p)
  }

  /** The kept items are those at the evenly spread positions. */
  ghost predicate IsEvenSpread<T(!new)>(items: seq<T>, kept: seq<T>, m: nat) {
    && |kept| == m
    && forall i: nat :: i < m ==> IsSpreadItem(items, kept[i], i, m)
  }

  ghost predicate IsSpreadItem<T(!new)>(items: seq<T>, x: T, i: nat, m: nat) {
    exists p: nat :: p < |items| && IsSpreadAt(i, |items|, m, p) && x == items[p]
  }

  function Index(i: nat, n: nat, m: nat): nat
    requires i < m
  {
    if m > 1 && n > 0 then RoundHalfEven(i * (n - 1), m - 1) else 0
  }

  lemma IndexStep(i: nat, n: nat, m: nat)
    requires i + 1 < m < n
    ensures Index(i, n, m) < Index(i + 1, n, m)
  {
    var b := m - 1;
    RoundingError(i * (n - 1), b);
    RoundingError((i + 1) * (n - 1), b);
    assert (i + 1) * (n - 1) == i * (n - 1) + (n - 1);
    if Index(i + 1, n, m) <= Index(i, n, m) {
      MulMonotone(b, Index(i + 1, n, m), Index(i, n, m));
    }
  }

  /** Distinct positions are kept in order. */
  lemma {:induction false} IndexesIncrease(i: nat, j: nat, n: nat, m: nat)
    requires i < j < m < n
    ensures Index(i, n, m) < Index(j, n, m)
    decreases j
  {
    IndexStep(j - 1, n, m);
    if i < j - 1 { IndexesIncrease(i, j - 1, n, m); }
  }

  lemma DivideExactly(b: nat, q: nat)
    requires b > 0
    ensures RoundHalfEven(b * q, b) == q
  {
    RoundingError(b * q, b);
    var r := RoundHalfEven(b * q, b);
    assert b * (r + 1) == b * r + b && b * (q + 1) == b * q + b;
    if r < q { MulMonotone(b, r + 1, q); }
    if r > q { MulMonotone(b, q + 1, r); }
  }

  /** The first and the last item are always kept. */
  lemma EndsAreKept(n: nat, m: nat)
    requires 2 <= m < n
    ensures Index(0, n, m) == 0 && Index(m - 1, n, m) == n - 1
  {
    DivideExactly(m - 1, n - 1);
  }

  lemma IndexInRange(i: nat, n: nat, m: nat)
    requires i < m < n
    ensures Index(i, n, m) < n
  {
    if m > 1 {
      EndsAreKept(n, m);
      if i < m - 1 { IndexesIncrease(i, m - 1, n, m); }
    }
  }

  /** The items at the kept positions, in their order. */
  function Keep<T>(items: seq<T>, m: nat): (kept: seq<T>)
    requires m < |items|
    ensures |kept| == m
    ensures forall x :: x in kept ==> x in items
    ensures m >= 2 ==> kept[0] == items[0] && kept[m - 1] == items[|items| - 1]
  {
    assert forall i :: 0 <= i < m ==> Index(i, |items|, m) < |items| by {
      forall i | 0 <= i < m ensures Index(i, |items|, m) < |items| { IndexInRange(i, |items|, m); }
    }
    if m >= 2 then EndsAreKept(|items|, m); Spread(items, m) else Spread(items, m)
  }

  function Spread<T>(items: seq<T>, m: nat): (kept: seq<T>)
    requires forall i :: 0 <= i < m ==> Index(i, |items|, m) < |items|
    ensures |kept| == m
  {
    seq(m, i requires 0 <= i < m => items[Index(i, |items|, m)])
  }

  /** What is kept, said without the rounding function. */
  lemma KeepIsEvenSpread<T(!new)>(items: seq<T>, m: nat)
    requires m < |items|
    ensures IsEvenSpread(items, Keep(items, m), m)
  {
    forall i: nat | i < m ensures IsSpreadItem(items, Keep(items, m)[i], i, m) {
      IndexInRange(i, |items|, m);
      IndexIsSpread(i, |items|, m);
      assert Keep(items, m)[i] == items[Index(i, |items|, m)];
    }
  }

  lemma IndexIsSpread(i: nat, n: nat, m: nat)
    requires i < m < n
    ensures IsSpreadAt(i, n, m, Index(i, n, m))
  {
    if m > 1 { RoundIsNearest(i * (n - 1), m - 1); }
  }

  /** Keeping distinct items yields exactly `m` distinct items. */
  lemma KeptItemsAreDistinct<T>(items: seq<T>, m: nat)
    requires m < |items|
    requires forall i, j :: 0 <= i < j < |items| ==> items[i] != items[j]
    ensures forall i, j :: 0 <= i < j < m ==> Keep(items, m)[i] != Keep(items, m)[j]
  {
    forall i, j | 0 <= i < j < m ensures Keep(items, m)[i] != Keep(items, m)[j] {
      IndexesIncrease(i, j, |items|, m);
      IndexInRange(j, |items|, m);
    }
  }

  /** `sel_chrono_stratified` over the relevant items in turn order. A negative cap has no first item to fall back on. */
  method ChronoStratified<T(!new)>(relevant: seq<T>, cap: int) returns (picked: seq<T>)
    requires cap >= 0 || relevant != []
    ensures |relevant| <= cap ==> picked == relevant
    ensures |relevant| > cap >= 1 ==> picked == Keep(relevant, cap) && IsEvenSpread(relevant, picked, cap)
    ensures |relevant| > cap && cap < 1 ==> picked == [relevant[0]]
  {
    if |relevant| <= cap { return relevant; }
    if cap >= 1 { KeepIsEvenSpread(relevant, cap); }
    if cap <= 1 { return [relevant[0]]; }
    picked := [];
    for i := 0 to cap
      invariant picked == Keep(relevant, cap)[..i]
    {
      IndexInRange(i, |relevant|, cap);
      picked := picked + [relevant[Index(i, |relevant|, cap)]];
    }
  }
}
