/** The order of strings, character by character, and sorting a set of them. */
module StringOrder {
  import opened Wrappers
  import opened Lists

  predicate Less(a: string, b: string) {
    b != "" && (a == "" || a[0] < b[0] || (a[0] == b[0] && Less(a[1..], b[1..])))
  }

  /** `a` ends, or has the smaller character, where the two first differ. */
  ghost predicate IsLessAt(a: string, b: string, k: nat) {
    k <= |a| && k < |b| && a[..k] == b[..k] && (k == |a| || a[k] < b[k])
  }

  lemma {:induction false} LessMeans(a: string, b: string)
    ensures Less(a, b) <==> exists k: nat :: IsLessAt(a, b, k)
  {
    if a != "" && b != "" && a[0] == b[0] {
      LessMeans(a[1..], b[1..]);
      forall k: nat | IsLessAt(a[1..], b[1..], k) ensures IsLessAt(a, b, k + 1) {
        assert a[..k + 1] == [a[0]] + a[1..][..k] && b[..k + 1] == [b[0]] + b[1..][..k];
      }
      forall k: nat | IsLessAt(a, b, k) ensures k > 0 && IsLessAt(a[1..], b[1..], k - 1) {
        assert a[1..][..k - 1] == a[..k][1..] && b[1..][..k - 1] == b[..k][1..];
      }
    } else if b != "" {
      if Less(a, b) { assert IsLessAt(a, b, 0); }
      forall k: nat | IsLessAt(a, b, k) ensures k == 0 { NothingShared(a, b, k); }
    }
  }

  lemma NothingShared(a: string, b: string, k: nat)
    requires b != "" && (a == "" || a[0] != b[0])
    ensures IsLessAt(a, b, k) ==> k == 0
  {
    if 0 < k <= |a| && k < |b| { assert a[..k][0] == a[0] && b[..k][0] == b[0]; }
  }

  lemma {:induction false} LessIsTotal(a: string, b: string)
    ensures Less(a, b) || a == b || Less(b, a)
    ensures !(Less(a, b) && (a == b || Less(b, a)))
  {
    if a != "" && b != "" {
      LessIsTotal(a[1..], b[1..]);
      assert a == [a[0]] + a[1..] && b == [b[0]] + b[1..];
    }
  }

  lemma {:induction false} LessIsTransitive(a: string, b: string, c: string)
    requires Less(a, b) && Less(b, c)
    ensures Less(a, c)
  {
    if a != "" { LessIsTotal(a[1..], b[1..]); }
    if a != "" && a[0] == b[0] == c[0] { LessIsTransitive(a[1..], b[1..], c[1..]); }
  }

  ghost predicate Ascending(s: seq<string>) {
    forall i, j :: 0 <= i < j < |s| ==> Less(s[i], s[j])
  }

  lemma AscendingIsDistinct(s: seq<string>)
    requires Ascending(s)
    ensures Distinct(s)
  {
    forall i, j | 0 <= i < j < |s| ensures s[i] != s[j] { LessIsTotal(s[i], s[j]); }
    DistinctMeans(s);
  }

  method Insert(sorted: seq<string>, x: string) returns (longer: seq<string>)
    requires Ascending(sorted) && x !in sorted
    ensures Ascending(longer) && Elements(longer) == Elements(sorted) + {x}
  {
    var k := 0;
    while k < |sorted| && Less(sorted[k], x)
      invariant 0 <= k <= |sorted|
      invariant forall i :: 0 <= i < k ==> Less(sorted[i], x)
    {
      k := k + 1;
    }
    longer := sorted[..k] + [x] + sorted[k..];
    assert sorted == sorted[..k] + sorted[k..];
    forall j | k <= j < |sorted| ensures Less(x, sorted[j]) {
      LessIsTotal(x, sorted[k]);
      if k < j { LessIsTransitive(x, sorted[k], sorted[j]); }
    }
  }

  /** `sorted(set(...))`. */
  method Sorted(ids: set<string>) returns (s: seq<string>)
    ensures Ascending(s) && Elements(s) == ids
  {
    s := [];
    var todo := ids;
    while todo != {}
      invariant todo <= ids && Ascending(s) && Elements(s) == ids - todo
      decreases todo
    {
      var x := Pick(todo);
      assert x !in Elements(s);
      s := Insert(s, x);
      todo := todo - {x};
    }
  }
}
