/** Sums of real values over finite sets. */
module Sums {
  ghost function Sum<T(!new)>(s: set<T>, f: T -> real): real {
    if s == {} then 0.0
    else
      var x :| x in s;
      f(x) + Sum(s - {x}, f)
  }

  lemma {:induction false} SumAdd<T(!new)>(s: set<T>, x: T, f: T -> real)
    requires x !in s
    ensures Sum(s + {x}, f) == Sum(s, f) + f(x)
  {
    var whole := s + {x};
    var first :| first in whole && Sum(whole, f) == f(first) + Sum(whole - {first}, f);
    if first == x {
      assert whole - {x} == s;
    } else {
      assert whole - {first} == (s - {first}) + {x};
      SumAdd(s - {first}, x, f);
      SumAdd(s - {first}, first, f);
      assert (s - {first}) + {first} == s;
    }
  }

  lemma {:induction false} SumUnion<T(!new)>(a: set<T>, b: set<T>, f: T -> real)
    requires a !! b
    ensures Sum(a + b, f) == Sum(a, f) + Sum(b, f)
  {
    if b == {} {
      assert a + b == a;
    } else {
      var x :| x in b;
      SumUnion(a, b - {x}, f);
      SumAdd(a + (b - {x}), x, f);
      SumAdd(b - {x}, x, f);
      assert a + b == (a + (b - {x})) + {x} && b == (b - {x}) + {x};
    }
  }

  lemma {:induction false} SumIsNotNegative<T(!new)>(s: set<T>, f: T -> real)
    requires forall x :: x in s ==> f(x) >= 0.0
    ensures Sum(s, f) >= 0.0
  {
    if s != {} {
      var x :| x in s && Sum(s, f) == f(x) + Sum(s - {x}, f);
      SumIsNotNegative(s - {x}, f);
    }
  }
}
