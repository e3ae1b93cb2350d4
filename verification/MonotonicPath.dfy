/** The highest-scoring nondecreasing choice of one source match per gold item, and its score penalty. */
module MonotonicPath {
  import opened Wrappers

  datatype Match = Match(score: real, turn: Option<int>)

  /** The turn a path ends at; the dynamic program starts before every turn, at -1. */
  function EndTurn(path: seq<Match>): int {
    if path == [] then -1
    else match path[|path| - 1].turn case Some(turn) => turn case None => -1
  }

  function Total(path: seq<Match>): real {
    if path == [] then 0.0 else Total(path[..|path| - 1]) + path[|path| - 1].score
  }

  /** One match for each of the first `n` items, every one with a turn, and the turns never fall. */
  ghost predicate IsPath(path: seq<Match>, alignments: seq<seq<Match>>, n: nat)
    requires n <= |alignments|
  {
    && |path| == n
    && (n > 0 ==>
          && path[n - 1] in alignments[n - 1] && path[n - 1].turn.Some?
          && EndTurn(path[..n - 1]) <= path[n - 1].turn.value
          && IsPath(path[..n - 1], alignments, n - 1))
  }

  /** A path is a nondecreasing choice: one listed match per item, each with a turn from -1 on. */
  lemma {:induction false} PathMeans(path: seq<Match>, alignments: seq<seq<Match>>, n: nat)
    requires n <= |alignments|
    ensures IsPath(path, alignments, n) <==>
      && |path| == n
      && (forall i :: 0 <= i < n ==> path[i] in alignments[i] && path[i].turn.Some? && -1 <= path[i].turn.value)
      && (forall i, j :: 0 <= i < j < n ==> path[i].turn.value <= path[j].turn.value)
  {
    if n > 0 && |path| == n {
      PathMeans(path[..n - 1], alignments, n - 1);
      assert forall i :: 0 <= i < n - 1 ==> path[i] == path[..n - 1][i];
      if n > 1 && path[n - 2].turn.Some? { assert EndTurn(path[..n - 1]) == path[n - 2].turn.value; }
    }
  }

  lemma {:induction false} PathPrefix(path: seq<Match>, alignments: seq<seq<Match>>, n: nat, k: nat)
    requires k <= n <= |alignments| && IsPath(path, alignments, n)
    ensures IsPath(path[..k], alignments, k)
  {
    if k < n {
      PathPrefix(path[..n - 1], alignments, n - 1, k);
      assert path[..n - 1][..k] == path[..k];
    } else {
      assert path[..n] == path;
    }
  }

  ghost predicate Best(path: seq<Match>, alignments: seq<seq<Match>>, n: nat)
    requires n <= |alignments|
  {
    && IsPath(path, alignments, n)
    && forall other :: IsPath(other, alignments, n) ==> Total(other) <= Total(path)
  }

  // ---------------------------------------------------------------- the dynamic program

  datatype State = State(total: real, path: seq<Match>)

  ghost predicate Sound(states: map<int, State>, alignments: seq<seq<Match>>, n: nat)
    requires n <= |alignments|
  {
    forall turn :: turn in states ==>
      && IsPath(states[turn].path, alignments, n)
      && EndTurn(states[turn].path) == turn
      && states[turn].total == Total(states[turn].path)
  }

  ghost predicate AtLeast(states: map<int, State>, turn: int, total: real) {
    turn in states && total <= states[turn].total
  }

  /** Every path over the first `n` items is matched or beaten by the state at its last turn. */
  ghost predicate Complete(states: map<int, State>, alignments: seq<seq<Match>>, n: nat)
    requires n <= |alignments|
  {
    forall path :: IsPath(path, alignments, n) ==> AtLeast(states, EndTurn(path), Total(path))
  }

  ghost predicate Dominates(updated: map<int, State>, states: map<int, State>) {
    forall turn :: turn in states ==> AtLeast(updated, turn, states[turn].total)
  }

  /** The first `bound` matches have been tried after the state that ends at `previous`. */
  ghost predicate Tried(updated: map<int, State>, states: map<int, State>, previous: int,
                        matches: seq<Match>, bound: nat)
    requires previous in states && bound <= |matches|
  {
    forall j :: 0 <= j < bound && matches[j].turn.Some? && previous <= matches[j].turn.value ==>
      AtLeast(updated, matches[j].turn.value, states[previous].total + matches[j].score)
  }

  lemma ExtendedPath(path: seq<Match>, m: Match, alignments: seq<seq<Match>>, n: nat)
    requires n < |alignments| && IsPath(path, alignments, n)
    requires m in alignments[n] && m.turn.Some? && EndTurn(path) <= m.turn.value
    ensures IsPath(path + [m], alignments, n + 1)
    ensures EndTurn(path + [m]) == m.turn.value && Total(path + [m]) == Total(path) + m.score
  {
    assert (path + [m])[..n] == path;
  }

  /** The loop over the matches of one item, after the state that ends at `previous`. */
  method TryMatches(states: map<int, State>, before: map<int, State>, previous: int,
                    alignments: seq<seq<Match>>, n: nat)
    returns (updated: map<int, State>)
    requires n < |alignments| && Sound(states, alignments, n) && previous in states
    requires Sound(before, alignments, n + 1)
    ensures Sound(updated, alignments, n + 1)
    ensures Dominates(updated, before)
    ensures Tried(updated, states, previous, alignments[n], |alignments[n]|)
  {
    updated := before;
    var matches := alignments[n];
    for j := 0 to |matches|
      invariant Sound(updated, alignments, n + 1)
      invariant Dominates(updated, before)
      invariant Tried(updated, states, previous, matches, j)
    {
      var m := matches[j];
      if m.turn.Some? && previous <= m.turn.value {
        ExtendedPath(states[previous].path, m, alignments, n);
        var candidate := State(states[previous].total + m.score, states[previous].path + [m]);
        if m.turn.value !in updated || candidate.total > updated[m.turn.value].total {
          updated := updated[m.turn.value := candidate];
        }
      }
    }
  }

  lemma StepIsComplete(updated: map<int, State>, states: map<int, State>, alignments: seq<seq<Match>>, n: nat)
    requires n < |alignments| && Complete(states, alignments, n)
    requires forall previous :: previous in states ==>
      Tried(updated, states, previous, alignments[n], |alignments[n]|)
    ensures Complete(updated, alignments, n + 1)
  {
    forall path | IsPath(path, alignments, n + 1) ensures AtLeast(updated, EndTurn(path), Total(path)) {
      var front := path[..n];
      assert AtLeast(states, EndTurn(front), Total(front));
      var j :| 0 <= j < |alignments[n]| && alignments[n][j] == path[n];
      assert Tried(updated, states, EndTurn(front), alignments[n], |alignments[n]|);
    }
  }

  /** `min(states.values())` by falling score. */
  method BestState(states: map<int, State>) returns (best: State)
    requires states.Keys != {}
    ensures exists turn :: turn in states && states[turn] == best
    ensures forall turn :: turn in states ==> states[turn].total <= best.total
  {
    var bestTurn := Pick(states.Keys);
    var todo := states.Keys;
    while todo != {}
      invariant bestTurn in states && todo <= states.Keys
      invariant forall turn :: turn in states && turn !in todo ==> states[turn].total <= states[bestTurn].total
      decreases todo
    {
      var turn := Pick(todo);
      if states[turn].total > states[bestTurn].total { bestTurn := turn; }
      todo := todo - {turn};
    }
    best := states[bestTurn];
  }

  method SelectMonotonicMatches(alignments: seq<seq<Match>>) returns (r: Option<seq<Match>>)
    ensures r.None? ==> forall path :: !IsPath(path, alignments, |alignments|)
    ensures r.Some? ==> Best(r.value, alignments, |alignments|)
  {
    var states := map[-1 := State(0.0, [])];
    assert -1 in states.Keys;
    for n := 0 to |alignments|
      invariant Sound(states, alignments, n)
      invariant Complete(states, alignments, n)
      invariant states.Keys != {}
    {
      var nextStates: map<int, State> := map[];
      var todo := states.Keys;
      while todo != {}
        invariant todo <= states.Keys
        invariant Sound(nextStates, alignments, n + 1)
        invariant forall previous :: previous in states && previous !in todo ==>
          Tried(nextStates, states, previous, alignments[n], |alignments[n]|)
        decreases todo
      {
        var previous := Pick(todo);
        nextStates := TryMatches(states, nextStates, previous, alignments, n);
        todo := todo - {previous};
      }
      StepIsComplete(nextStates, states, alignments, n);
      if nextStates == map[] {
        forall path ensures !IsPath(path, alignments, |alignments|) {
          if IsPath(path, alignments, |alignments|) { PathPrefix(path, alignments, |alignments|, n + 1); }
        }
        return None;
      }
      states := nextStates;
    }
    var best := BestState(states);
    assert IsPath(best.path, alignments, |alignments|);
    r := Some(best.path);
  }

  // ---------------------------------------------------------------- the score penalty

  ghost predicate Ranked(matches: seq<Match>) {
    forall i, j :: 0 <= i < j < |matches| ==> matches[j].score <= matches[i].score
  }

  /** `independent_best_score`: the first ranked match of every item that has one. */
  function IndependentScore(alignments: seq<seq<Match>>, n: nat): real
    requires n <= |alignments|
  {
    if n == 0 then 0.0
    else IndependentScore(alignments, n - 1) + if alignments[n - 1] == [] then 0.0 else alignments[n - 1][0].score
  }

  lemma BestOfItem(m: Match, matches: seq<Match>)
    requires Ranked(matches) && m in matches
    ensures m.score <= matches[0].score
  {
  }

  /** The reported `monotonic_score_penalty` is never negative. */
  lemma {:induction false} PenaltyIsNotNegative(path: seq<Match>, alignments: seq<seq<Match>>, n: nat)
    requires n <= |alignments| && IsPath(path, alignments, n)
    requires forall i :: 0 <= i < n ==> Ranked(alignments[i])
    ensures Total(path) <= IndependentScore(alignments, n)
  {
    if n > 0 {
      BestOfItem(path[n - 1], alignments[n - 1]);
      PenaltyIsNotNegative(path[..n - 1], alignments, n - 1);
    }
  }

  // ---------------------------------------------------------------- first mentions

  /** The earliest of the plausible matches, the first one listed among equals. */
  function Earliest(matches: seq<Match>, floor: real): (m: Option<Match>)
    ensures m.Some? ==> m.value in matches && m.value.score >= floor && m.value.turn.Some?
    ensures forall other :: other in matches && other.score >= floor && other.turn.Some? ==>
      m.Some? && m.value.turn.value <= other.turn.value
  {
    if matches == [] then None
    else
      var n := |matches| - 1;
      var best := Earliest(matches[..n], floor);
      assert matches == matches[..n] + [matches[n]];
      if matches[n].score >= floor && matches[n].turn.Some?
         && (best.None? || matches[n].turn.value < best.value.turn.value)
      then Some(matches[n]) else best
  }

  /** `select_first_mention_match`: the earliest plausible match, or the top one when none is plausible. */
  function FirstMention(matches: seq<Match>, delta: real): Option<Match> {
    if matches == [] then None
    else if Earliest(matches, matches[0].score - delta).Some? then Earliest(matches, matches[0].score - delta)
    else Some(matches[0])
  }

  function FirstMentions(alignments: seq<seq<Match>>, delta: real): (mentions: seq<Option<Match>>)
    ensures |mentions| == |alignments|
    ensures forall i :: 0 <= i < |mentions| ==> mentions[i] == FirstMention(alignments[i], delta)
  {
    seq(|alignments|, i requires 0 <= i < |alignments| => FirstMention(alignments[i], delta))
  }

  /** `matched_turns`: the turns of the first mentions, leaving out items without one. */
  function MatchedTurns(mentions: seq<Option<Match>>): seq<int> {
    if mentions == [] then []
    else MatchedTurns(mentions[..|mentions| - 1]) + TurnOf(mentions[|mentions| - 1])
  }

  function TurnOf(mention: Option<Match>): seq<int> {
    if mention.Some? && mention.value.turn.Some? then [mention.value.turn.value] else []
  }

  predicate InOrder(turns: seq<int>) {
    forall i :: 0 <= i < |turns| - 1 ==> turns[i] <= turns[i + 1]
  }

  /** The reported flag `chronological`: no matched turn is followed by an earlier one. */
  predicate Chronological(alignments: seq<seq<Match>>, delta: real) {
    InOrder(MatchedTurns(FirstMentions(alignments, delta)))
  }

  lemma InOrderAppend(turns: seq<int>, turn: int)
    ensures InOrder(turns + [turn]) <==> InOrder(turns) && (turns != [] ==> turns[|turns| - 1] <= turn)
  {
    var longer := turns + [turn];
    assert forall i :: 0 <= i < |turns| ==> longer[i] == turns[i];
    if InOrder(longer) && turns != [] { assert longer[|turns| - 1] <= longer[|turns|]; }
  }

  /** Every item has a first mention, and it has a turn. */
  predicate AllTimed(mentions: seq<Option<Match>>) {
    forall i :: 0 <= i < |mentions| ==> mentions[i].Some? && mentions[i].value.turn.Some?
  }

  /** Turns are read from digits. */
  predicate TurnsAreCounted(alignments: seq<seq<Match>>) {
    forall i, m :: 0 <= i < |alignments| && m in alignments[i] && m.turn.Some? ==> m.turn.value >= 0
  }

  /** One listed match per item, each with a turn. */
  ghost predicate IsTimedChoice(path: seq<Match>, alignments: seq<seq<Match>>, n: nat)
    requires n <= |alignments|
  {
    |path| == n && forall i :: 0 <= i < n ==> path[i] in alignments[i] && path[i].turn.Some? && path[i].turn.value >= 0
  }

  function Mentioned(path: seq<Match>): (mentions: seq<Option<Match>>)
    ensures |mentions| == |path|
  {
    seq(|path|, i requires 0 <= i < |path| => Some(path[i]))
  }

  /** For a choice with a turn for every item, the flag says that the choice is a monotonic path. */
  lemma {:induction false} FlagMeansPath(path: seq<Match>, alignments: seq<seq<Match>>, n: nat)
    requires n <= |alignments| && IsTimedChoice(path, alignments, n)
    ensures var turns := MatchedTurns(Mentioned(path));
      && |turns| == n && (n > 0 ==> turns[n - 1] == EndTurn(path))
      && (IsPath(path, alignments, n) <==> InOrder(turns))
  {
    if n > 0 {
      FlagMeansPath(path[..n - 1], alignments, n - 1);
      assert Mentioned(path)[..n - 1] == Mentioned(path[..n - 1]);
      InOrderAppend(MatchedTurns(Mentioned(path[..n - 1])), path[n - 1].turn.value);
    }
  }

  /** The path takes the first mention of every item. */
  ghost predicate IsFirstMentionPath(path: seq<Match>, alignments: seq<seq<Match>>, delta: real) {
    IsPath(path, alignments, |alignments|) && FirstMentions(alignments, delta) == Mentioned(path)
  }

  /** The first mentions as a choice, when all of them have a turn. */
  lemma TimedFirstMentions(alignments: seq<seq<Match>>, delta: real) returns (path: seq<Match>)
    requires TurnsAreCounted(alignments) && AllTimed(FirstMentions(alignments, delta))
    ensures IsTimedChoice(path, alignments, |alignments|) && FirstMentions(alignments, delta) == Mentioned(path)
  {
    var mentions := FirstMentions(alignments, delta);
    path := seq(|mentions|, i requires 0 <= i < |mentions| => mentions[i].value);
  }

  /** The first mentions of a row reported chronological are a monotonic path exactly when all of them have a turn. */
  lemma ChronologicalRowsFollowFirstMentions(alignments: seq<seq<Match>>, delta: real)
    requires TurnsAreCounted(alignments) && Chronological(alignments, delta)
    ensures (exists path :: IsFirstMentionPath(path, alignments, delta)) <==> AllTimed(FirstMentions(alignments, delta))
  {
    if AllTimed(FirstMentions(alignments, delta)) {
      var path := TimedFirstMentions(alignments, delta);
      FlagMeansPath(path, alignments, |alignments|);
      assert IsFirstMentionPath(path, alignments, delta);
    }
    if path :| IsFirstMentionPath(path, alignments, delta) {
      PathMeans(path, alignments, |alignments|);
      assert forall i :: 0 <= i < |path| ==> FirstMentions(alignments, delta)[i] == Mentioned(path)[i];
    }
  }

  predicate IsPlausible(m: Match, matches: seq<Match>, delta: real) {
    matches != [] && m.score >= matches[0].score - delta
  }

  predicate ArePlausible(path: seq<Match>, alignments: seq<seq<Match>>, delta: real, n: nat)
    requires n <= |alignments| && n <= |path|
  {
    forall i :: 0 <= i < n ==> IsPlausible(path[i], alignments[i], delta)
  }

  /** A first mention with a turn scores at most `delta` less than the top match. */
  lemma FirstMentionIsPlausible(m: Match, matches: seq<Match>, delta: real)
    requires delta >= 0.0 && FirstMention(matches, delta) == Some(m) && m.turn.Some?
    ensures IsPlausible(m, matches, delta)
  {
  }

  lemma {:induction false} ChoiceCost(path: seq<Match>, alignments: seq<seq<Match>>, delta: real, n: nat)
    requires n <= |alignments| && |path| == n && ArePlausible(path, alignments, delta, n)
    ensures IndependentScore(alignments, n) - Total(path) <= Allowance(n, delta)
  {
    AllowanceStep(if n > 0 then n - 1 else 0, delta);
    if n > 0 {
      assert forall i :: 0 <= i < n - 1 ==> path[..n - 1][i] == path[i];
      ChoiceCost(path[..n - 1], alignments, delta, n - 1);
    }
  }

  /** `n` times `delta`. */
  function Allowance(n: nat, delta: real): real {
    n as real * delta
  }

  lemma AllowanceStep(n: nat, delta: real)
    ensures Allowance(0, delta) == 0.0 && Allowance(n + 1, delta) == Allowance(n, delta) + delta
  {
    assert (n + 1) as real == n as real + 1.0;
  }

  lemma ItemIsPlausible(path: seq<Match>, alignments: seq<seq<Match>>, delta: real, i: nat)
    requires delta >= 0.0 && FirstMentions(alignments, delta) == Mentioned(path) && AllTimed(Mentioned(path))
    requires i < |path| == |alignments|
    ensures IsPlausible(path[i], alignments[i], delta)
  {
    assert FirstMentions(alignments, delta)[i] == Mentioned(path)[i];
    FirstMentionIsPlausible(path[i], alignments[i], delta);
  }

  lemma FirstMentionsArePlausible(path: seq<Match>, alignments: seq<seq<Match>>, delta: real)
    requires delta >= 0.0 && FirstMentions(alignments, delta) == Mentioned(path) && AllTimed(Mentioned(path))
    ensures |path| == |alignments| && ArePlausible(path, alignments, delta, |alignments|)
  {
    forall i: nat | i < |path| == |alignments| ensures IsPlausible(path[i], alignments[i], delta) {
      ItemIsPlausible(path, alignments, delta, i);
    }
  }

  lemma SomeCheapPath(alignments: seq<seq<Match>>, delta: real) returns (path: seq<Match>)
    requires delta >= 0.0 && TurnsAreCounted(alignments)
    requires Chronological(alignments, delta) && AllTimed(FirstMentions(alignments, delta))
    ensures IsPath(path, alignments, |alignments|)
    ensures IndependentScore(alignments, |alignments|) - Total(path) <= Allowance(|alignments|, delta)
  {
    path := TimedFirstMentions(alignments, delta);
    FlagMeansPath(path, alignments, |alignments|);
    FirstMentionsArePlausible(path, alignments, delta);
    ChoiceCost(path, alignments, delta, |alignments|);
  }

  /** Such a row is recoverable, and the best path costs at most `delta` an item. */
  lemma ChronologicalRowsAreRecoverable(best: seq<Match>, alignments: seq<seq<Match>>, delta: real)
    requires delta >= 0.0 && TurnsAreCounted(alignments)
    requires Chronological(alignments, delta) && AllTimed(FirstMentions(alignments, delta))
    ensures Recoverable(alignments)
    ensures Best(best, alignments, |alignments|) ==>
      IndependentScore(alignments, |alignments|) - Total(best) <= |alignments| as real * delta
  {
    var path := SomeCheapPath(alignments, delta);
  }

  // ---------------------------------------------------------------- recoverable rows

  /** The least turn not below `floor` among the matches. */
  function LeastTurn(matches: seq<Match>, floor: int): (least: Option<int>)
    ensures least.Some? ==> floor <= least.value && exists m :: m in matches && m.turn == least
    ensures forall m :: m in matches && m.turn.Some? && floor <= m.turn.value ==>
      least.Some? && least.value <= m.turn.value
  {
    if matches == [] then None
    else
      var n := |matches| - 1;
      var least := LeastTurn(matches[..n], floor);
      assert matches == matches[..n] + [matches[n]];
      var turn := matches[n].turn;
      if turn.Some? && floor <= turn.value && (least.None? || turn.value < least.value) then turn else least
  }

  /** Where the first `n` items end at the earliest: for each item the least turn not below the one before. */
  function EarliestEnd(alignments: seq<seq<Match>>, n: nat): Option<int>
    requires n <= |alignments|
  {
    if n == 0 then Some(-1)
    else
      match EarliestEnd(alignments, n - 1)
      case Some(turn) => LeastTurn(alignments[n - 1], turn)
      case None => None
  }

  /** No path ends before the earliest end. */
  lemma {:induction false} NoPathEndsEarlier(path: seq<Match>, alignments: seq<seq<Match>>, n: nat)
    requires n <= |alignments| && IsPath(path, alignments, n)
    ensures EarliestEnd(alignments, n).Some? && EarliestEnd(alignments, n).value <= EndTurn(path)
  {
    if n > 0 {
      NoPathEndsEarlier(path[..n - 1], alignments, n - 1);
      assert path[n - 1] in alignments[n - 1];
    }
  }

  lemma {:induction false} EarliestPath(alignments: seq<seq<Match>>, n: nat) returns (path: seq<Match>)
    requires n <= |alignments| && EarliestEnd(alignments, n).Some?
    ensures IsPath(path, alignments, n) && EndTurn(path) == EarliestEnd(alignments, n).value
  {
    path := [];
    if n > 0 {
      var front := EarliestPath(alignments, n - 1);
      var m :| m in alignments[n - 1] && m.turn == EarliestEnd(alignments, n);
      ExtendedPath(front, m, alignments, n - 1);
      path := front + [m];
    }
  }

  /** The reported flag `monotonic_recoverable`. */
  ghost predicate Recoverable(alignments: seq<seq<Match>>) {
    exists path :: IsPath(path, alignments, |alignments|)
  }

  lemma UnstuckIsRecoverable(alignments: seq<seq<Match>>)
    requires EarliestEnd(alignments, |alignments|).Some?
    ensures Recoverable(alignments)
  {
    var path := EarliestPath(alignments, |alignments|);
  }

  lemma RecoverableIsUnstuck(alignments: seq<seq<Match>>)
    requires Recoverable(alignments)
    ensures EarliestEnd(alignments, |alignments|).Some?
  {
    var path :| IsPath(path, alignments, |alignments|);
    NoPathEndsEarlier(path, alignments, |alignments|);
  }

  /** A row is recoverable exactly when taking the least possible turn for every item never gets stuck. */
  lemma RecoverableExactly(alignments: seq<seq<Match>>)
    ensures Recoverable(alignments) <==> EarliestEnd(alignments, |alignments|).Some?
  {
    if Recoverable(alignments) { RecoverableIsUnstuck(alignments); }
    if EarliestEnd(alignments, |alignments|).Some? { UnstuckIsRecoverable(alignments); }
  }

  /** For a row reported chronological, first mentions with a turn throughout are enough, whatever else is listed. */
  lemma TimedChronologicalRowsNeverGetStuck(alignments: seq<seq<Match>>, delta: real)
    requires delta >= 0.0 && TurnsAreCounted(alignments)
    requires Chronological(alignments, delta) && AllTimed(FirstMentions(alignments, delta))
    ensures EarliestEnd(alignments, |alignments|).Some?
  {
    var path := SomeCheapPath(alignments, delta);
    NoPathEndsEarlier(path, alignments, |alignments|);
  }

  /** They are not needed: here the first mention has no turn, and another match saves the row. */
  lemma UntimedRowCanBeRecoverable(score: real, lower: real, turn: nat, delta: real)
    requires lower < score - delta
    ensures var alignments := [[Match(score, None), Match(lower, Some(turn))]];
      && Chronological(alignments, delta) && !AllTimed(FirstMentions(alignments, delta))
      && EarliestEnd(alignments, 1).Some?
  {
    var matches := [Match(score, None), Match(lower, Some(turn))];
    assert matches[1] in matches;
    assert Earliest(matches, score - delta).None?;
    assert FirstMentions([matches], delta) == [Some(Match(score, None))];
    assert [matches][0] == matches && EarliestEnd([matches], 0) == Some(-1);
    assert LeastTurn(matches, -1).Some?;
  }

  /** An item none of whose matches has a turn makes the row unrecoverable, whatever the flag says. */
  lemma TurnlessItemsAreUnrecoverable(path: seq<Match>, alignments: seq<seq<Match>>, i: nat)
    requires i < |alignments| && forall m :: m in alignments[i] ==> m.turn.None?
    ensures !IsPath(path, alignments, |alignments|)
  {
    PathMeans(path, alignments, |alignments|);
  }

  /** A row whose only match has no turn is reported chronological, and no path exists. */
  lemma ChronologicalRowCanBeUnrecoverable(score: real, delta: real)
    ensures Chronological([[Match(score, None)]], delta)
    ensures !Recoverable([[Match(score, None)]])
  {
    var alignments := [[Match(score, None)]];
    assert FirstMentions(alignments, delta) == [Some(Match(score, None))];
    forall path ensures !IsPath(path, alignments, 1) { TurnlessItemsAreUnrecoverable(path, alignments, 0); }
  }
}
