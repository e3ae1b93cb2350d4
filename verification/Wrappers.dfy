/** Shared vocabulary. */
module Wrappers {
  datatype Option<+T> = None | Some(value: T)

  /** The next element of a container whose iteration order is not fixed. */
  method Pick<T>(s: set<T>) returns (x: T)
    requires s != {}
    ensures x in s
  {
    x :| x in s;
  }

  /** `word` stands in `s` at `i`. */
  predicate HasAt(s: string, i: nat, word: string) {
    i + |word| <= |s| && forall j :: 0 <= j < |word| ==> word[j] == s[i + j]
  }
}
