/** Which match a first mention is, which turns are compared, and what the independent score adds up. */
module MentionLaws {
  import opened Wrappers
  import opened MonotonicPath

  /** A match with a turn that scores at most `delta` less than the top one. */
  predicate IsCandidate(matches: seq<Match>, delta: real, i: nat)
    requires i < |matches|
  {
    matches[i].turn.Some? && matches[i].score >= matches[0].score - delta
  }

  /** The first listed of the candidates of least turn. */
  ghost predicate IsLeastCandidate(matches: seq<Match>, delta: real, i: nat)
    requires i < |matches|
  {
    && IsCandidate(matches, delta, i)
    && forall j: nat :: j < |matches| && IsCandidate(matches, delta, j) ==>
         && matches[i].turn.value <= matches[j].turn.value
         && (j < i ==> matches[i].turn.value < matches[j].turn.value)
  }

  /** Where the earliest match above a floor stands. */
  ghost predicate IsEarliestAt(matches: seq<Match>, floor: real, i: nat)
    requires i < |matches|
  {
    && matches[i].turn.Some? && matches[i].score >= floor
    && forall j: nat :: j < |matches| && matches[j].turn.Some? && matches[j].score >= floor ==>
         && matches[i].turn.value <= matches[j].turn.value
         && (j < i ==> matches[i].turn.value < matches[j].turn.value)
  }

  lemma {:induction false} EarliestAt(matches: seq<Match>, floor: real) returns (i: nat)
    requires Earliest(matches, floor).Some?
    ensures i < |matches| && IsEarliestAt(matches, floor, i) && Earliest(matches, floor) == Some(matches[i])
  {
    var n: nat := |matches| - 1;
    var front, last := matches[..n], matches[n];
    assert forall j: nat :: j < n ==> front[j] == matches[j];
    i := n;
    if Earliest(front, floor).Some? {
      var k := EarliestAt(front, floor);
      if !(last.turn.Some? && last.score >= floor && last.turn.value < front[k].turn.value) { i := k; }
    }
  }

  /** The first mention: the least candidate, or the top match when there is none. */
  lemma FirstMentionMeans(matches: seq<Match>, delta: real)
    requires matches != []
    ensures (forall j: nat :: j < |matches| ==> !IsCandidate(matches, delta, j)) ==>
      FirstMention(matches, delta) == Some(matches[0])
    ensures forall i: nat :: i < |matches| && IsLeastCandidate(matches, delta, i) ==>
      FirstMention(matches, delta) == Some(matches[i])
  {
    if Earliest(matches, matches[0].score - delta).Some? {
      var k := EarliestAt(matches, matches[0].score - delta);
      assert IsCandidate(matches, delta, k);
    }
  }

  lemma NoMatchNoMention(delta: real)
    ensures FirstMention([], delta) == None
  {
  }

  predicate IsTimed(mention: Option<Match>) {
    mention.Some? && mention.value.turn.Some?
  }

  /** The compared turns are those of the first mentions that have one, in item order. */
  ghost predicate AreTurnsAt(mentions: seq<Option<Match>>, turns: seq<int>, at: seq<nat>) {
    && |at| == |turns| && (forall i, j :: 0 <= i < j < |at| ==> at[i] < at[j])
    && (forall j :: 0 <= j < |at| ==>
          at[j] < |mentions| && IsTimed(mentions[at[j]]) && turns[j] == mentions[at[j]].value.turn.value)
    && (forall i: nat :: i < |mentions| && IsTimed(mentions[i]) ==> i in at)
  }

  lemma {:induction false} MatchedTurnsMean(mentions: seq<Option<Match>>) returns (at: seq<nat>)
    ensures AreTurnsAt(mentions, MatchedTurns(mentions), at)
  {
    at := [];
    if mentions != [] {
      var n: nat := |mentions| - 1;
      at := MatchedTurnsMean(mentions[..n]);
      OneMoreTurn(mentions, MatchedTurns(mentions[..n]), at);
      if IsTimed(mentions[n]) { at := at + [n]; }
    }
  }

  lemma OneMoreTurn(mentions: seq<Option<Match>>, turns: seq<int>, at: seq<nat>)
    requires mentions != [] && AreTurnsAt(mentions[..|mentions| - 1], turns, at)
    ensures var n := |mentions| - 1;
      if IsTimed(mentions[n]) then AreTurnsAt(mentions, turns + [mentions[n].value.turn.value], at + [n])
      else AreTurnsAt(mentions, turns, at)
  {
    var n: nat := |mentions| - 1;
    assert forall i: nat :: i < n ==> mentions[..n][i] == mentions[i];
  }

  /** When every item has a match, the independent score is the total of the top matches. */
  lemma {:induction false} IndependentIsTotal(alignments: seq<seq<Match>>, tops: seq<Match>, n: nat)
    requires n <= |alignments| && |tops| == n
    requires forall i :: 0 <= i < n ==> alignments[i] != [] && tops[i] == alignments[i][0]
    ensures IndependentScore(alignments, n) == Total(tops)
  {
    if n > 0 {
      assert forall i :: 0 <= i < n - 1 ==> tops[..n - 1][i] == tops[i];
      IndependentIsTotal(alignments, tops[..n - 1], n - 1);
    }
  }

  /** An item without a match adds nothing. */
  lemma NoMatchNoScore(alignments: seq<seq<Match>>, n: nat)
    requires n < |alignments| && alignments[n] == []
    ensures IndependentScore(alignments, n + 1) == IndependentScore(alignments, n)
  {
  }
}
