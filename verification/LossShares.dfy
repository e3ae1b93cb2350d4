/** What the shares of the loss ledger count, and which bucket each category pays into. */
module LossShares {
  import opened Wrappers
  import opened Sums
  import opened Lists
  import opened LossLedger

  // ---------------------------------------------------------------- what the shares count

  function EachPlaces(rows: seq<Row>, stage: Stage): (sets: seq<set<nat>>)
    ensures |sets| == |rows|
  {
    seq(|rows|, i requires 0 <= i < |rows| => Positions(rows[i].stages, s => s == stage))
  }

  function EachItems(rows: seq<Row>): (sets: seq<set<nat>>)
    ensures |sets| == |rows|
  {
    seq(|rows|, i requires 0 <= i < |rows| => Below(|rows[i].stages|))
  }

  /** How many items of the rows are at a stage, and how many there are. */
  function CountAt(rows: seq<Row>, stage: Stage): nat {
    SizeSum(EachPlaces(rows, stage))
  }

  function CountItems(rows: seq<Row>): nat {
    SizeSum(EachItems(rows))
  }

  lemma {:induction false} StageCountMeans(stages: seq<Stage>, stage: Stage)
    ensures StageCount(stages, stage) == |Positions(stages, s => s == stage)|
  {
    if stages == [] {
      assert Positions(stages, s => s == stage) == {};
    } else {
      StageCountMeans(stages[..|stages| - 1], stage);
      PositionsStep(stages, s => s == stage);
    }
  }

  lemma {:induction false} ItemsAtMeans(rows: seq<Row>, stage: Stage)
    ensures ItemsAt(rows, stage) == CountAt(rows, stage)
  {
    if rows != [] {
      var n := |rows| - 1;
      ItemsAtMeans(rows[..n], stage);
      StageCountMeans(rows[n].stages, stage);
      assert EachPlaces(rows, stage)[..n] == EachPlaces(rows[..n], stage);
    }
  }

  lemma {:induction false} ItemsMean(rows: seq<Row>)
    ensures Items(rows) == CountItems(rows)
  {
    if rows != [] {
      var n := |rows| - 1;
      ItemsMean(rows[..n]);
      BelowSize(|rows[n].stages|);
      assert EachItems(rows)[..n] == EachItems(rows[..n]);
    }
  }

  predicate IsZero(row: Row) { row.score == 0.0 }

  predicate IsDominantZero(row: Row) { row.score == 0.0 && row.dominant }

  predicate IsOtherZero(row: Row) { row.score == 0.0 && !row.dominant }

  predicate IsDefectiveZero(row: Row) {
    row.score == 0.0 && (row.verdict == Some(GoldPrecedes) || row.verdict == Some(GoldNotExact))
  }

  predicate IsTarget(row: Row, owner: Owner) {
    match owner
    case Ours => row.target == Some(TargetLost)
    case Label => row.target == Some(TargetMismatch)
    case Reader => row.target != Some(TargetLost) && row.target != Some(TargetMismatch)
  }

  function CountRows(rows: seq<Row>, p: Row -> bool): nat {
    |Positions(rows, p)|
  }

  lemma {:induction false} ZeroCountsMean(rows: seq<Row>)
    ensures ZeroRows(rows) == CountRows(rows, IsZero) && DominantZeroRows(rows) == CountRows(rows, IsDominantZero)
    ensures LabelDefects(rows) == CountRows(rows, IsDefectiveZero)
    ensures CountRows(rows, IsOtherZero) == CountRows(rows, IsZero) - CountRows(rows, IsDominantZero)
  {
    if rows == [] {
      assert Positions(rows, IsZero) == {} && Positions(rows, IsDominantZero) == {};
      assert Positions(rows, IsDefectiveZero) == {} && Positions(rows, IsOtherZero) == {};
    } else {
      ZeroCountsMean(rows[..|rows| - 1]);
      PositionsStep(rows, IsZero);
      PositionsStep(rows, IsDominantZero);
      PositionsStep(rows, IsOtherZero);
      PositionsStep(rows, IsDefectiveZero);
    }
  }

  /** The rows whose target was lost in retrieval, whose target is mismatched, or all others. */
  function RowsOf(rows: seq<Row>, owner: Owner): set<nat> {
    Positions(rows, HasTarget(owner))
  }

  function HasTarget(owner: Owner): Row -> bool {
    (row: Row) => IsTarget(row, owner)
  }

  lemma RowsOfStep(rows: seq<Row>, owner: Owner)
    requires rows != []
    ensures |rows| - 1 !in RowsOf(rows[..|rows| - 1], owner)
    ensures RowsOf(rows, owner)
         == RowsOf(rows[..|rows| - 1], owner) + if TargetOwner(rows[|rows| - 1]) == owner then {|rows| - 1} else {}
  {
    PositionsStep(rows, HasTarget(owner));
    OwnerIsTarget(rows[|rows| - 1], owner);
  }

  lemma OwnerIsTarget(row: Row, owner: Owner)
    ensures TargetOwner(row) == owner <==> HasTarget(owner)(row)
  {
  }

  function Shortfall(rows: seq<Row>): nat -> real {
    (i: nat) => if i < |rows| then 1.0 - rows[i].score else 0.0
  }

  lemma {:induction false} SumsAgree(s: set<nat>, f: nat -> real, g: nat -> real)
    requires forall i :: i in s ==> f(i) == g(i)
    ensures Sum(s, f) == Sum(s, g)
  {
    if s != {} {
      var i :| i in s;
      var rest := s - {i};
      SumsAgree(rest, f, g);
      SumAdd(rest, i, f);
      SumAdd(rest, i, g);
      assert s == rest + {i};
    }
  }

  /** A deficit is the shortfall of the rows the owner answers for, added up. */
  lemma {:induction false} DeficitMeans(rows: seq<Row>, owner: Owner)
    ensures Deficit(rows, owner) == Sum(RowsOf(rows, owner), Shortfall(rows))
  {
    if rows == [] {
      assert RowsOf(rows, owner) == {};
    } else {
      var n: nat := |rows| - 1;
      DeficitMeans(rows[..n], owner);
      SumsAgree(RowsOf(rows[..n], owner), Shortfall(rows[..n]), Shortfall(rows));
      RowsOfStep(rows, owner);
      if TargetOwner(rows[n]) == owner {
        SumAdd(RowsOf(rows[..n], owner), n, Shortfall(rows));
      } else {
        assert RowsOf(rows, owner) == RowsOf(rows[..n], owner);
      }
    }
  }

  /** Rounding to six digits: the nearest number of millionths, the even one of two. */
  lemma Round6Means(x: real)
    ensures exists k: int :: IsMillionths(k, x, Round6(x))
  {
    NearestMeans(x * 1000000.0);
    assert IsMillionths(Nearest(x * 1000000.0), x, Round6(x));
  }

  predicate IsMillionths(k: int, x: real, r: real) {
    r == k as real / 1000000.0 && IsNearestTo(k, x * 1000000.0)
  }

  predicate IsNearestTo(k: int, x: real) {
    x - 0.5 <= k as real <= x + 0.5 && (k as real == x - 0.5 || k as real == x + 0.5 ==> k % 2 == 0)
  }

  lemma NearestMeans(x: real)
    ensures IsNearestTo(Nearest(x), x)
  {
  }

  /** `share` is this many of that many, or nothing of nothing. */
  predicate IsShare(share: Share, count: real, whole: real) {
    if whole == 0.0 then Fraction(share) == 0.0 else Fraction(share) * whole == count
  }

  lemma FractionMeans(share: Share)
    ensures IsShare(share, share.count, share.denominator)
  {
  }

  /** Items decide: retrieval losses are ours, answer losses the reader's, and synthesis is counted apart. */
  lemma ItemSharesMean(category: Category, rows: seq<Row>)
    requires category !in {Instruction, Preference, Abstention}
    ensures var a, n := Attributed(category, rows), CountItems(rows) as real;
      && IsShare(a.ours, CountAt(rows, RetrievalLoss) as real, n)
      && IsShare(a.reader, CountAt(rows, AnswerLoss) as real, n)
      && IsShare(a.synthesis, CountAt(rows, SynthesisRequired) as real, n)
      && IsShare(a.label_, CountRows(rows, IsDefectiveZero) as real, CountRows(rows, IsZero) as real)
  {
    var a := Attributed(category, rows);
    ItemsAtMeans(rows, RetrievalLoss);
    ItemsAtMeans(rows, AnswerLoss);
    ItemsAtMeans(rows, SynthesisRequired);
    ItemsMean(rows);
    ZeroCountsMean(rows);
    FractionMeans(a.ours);
    FractionMeans(a.reader);
    FractionMeans(a.synthesis);
    FractionMeans(a.label_);
  }

  /** For abstention the zero-score rows decide: the dominant ones are ours, the others the reader's. */
  lemma AbstentionSharesMean(rows: seq<Row>)
    ensures var a, n := Attributed(Abstention, rows), CountRows(rows, IsZero) as real;
      && IsShare(a.ours, CountRows(rows, IsDominantZero) as real, n) && IsShare(a.reader, CountRows(rows, IsOtherZero) as real, n)
      && IsShare(a.label_, CountRows(rows, IsDefectiveZero) as real, n)
  {
    var a := Attributed(Abstention, rows);
    ZeroCountsMean(rows);
    FractionMeans(a.ours);
    FractionMeans(a.reader);
    FractionMeans(a.label_);
  }

  /** For instruction and preference rows the target's stage decides, with every number rounded. */
  lemma DeficitSharesMean(category: Category, rows: seq<Row>)
    requires category in {Instruction, Preference}
    ensures var a := Attributed(category, rows);
      var lost, mismatched, other := Sum(RowsOf(rows, Ours), Shortfall(rows)), Sum(RowsOf(rows, Label), Shortfall(rows)),
                                     Sum(RowsOf(rows, Reader), Shortfall(rows));
      var n := Round6(lost + mismatched + other);
      && IsShare(a.ours, Round6(lost), n) && IsShare(a.label_, Round6(mismatched), n) && IsShare(a.reader, Round6(other), n)
  {
    var a := Attributed(category, rows);
    DeficitMeans(rows, Ours);
    DeficitMeans(rows, Label);
    DeficitMeans(rows, Reader);
    FractionMeans(a.ours);
    FractionMeans(a.label_);
    FractionMeans(a.reader);
  }

  // ---------------------------------------------------------------- which bucket a category pays into

  /** Only one category loses points. */
  ghost predicate OnlyLoses(loss: Category -> real, c: Category) {
    forall other :: other != c ==> loss(other) == 0.0
  }

  /** The part of every other category is nothing. */
  lemma PartAt(loss: Category -> real, summaries: Summaries, c: Category, other: Category, owner: Owner)
    requires OnlyLoses(loss, c)
    ensures Part(loss, summaries, other, owner)
         == if other == c then Scaled(loss(c), ShareOf(summaries, c, owner)) else 0.0
  {
  }

  lemma UnauditedAt(loss: Category -> real, summaries: Summaries, c: Category, other: Category)
    requires OnlyLoses(loss, c)
    ensures Unaudited(loss, summaries, other) == if other == c && c !in summaries then loss(c) else 0.0
  {
  }

  /** Knowledge updates pay for label defects, multi-session answers for synthesis. */
  lemma DeadPays(loss: Category -> real, summaries: Summaries, c: Category)
    requires OnlyLoses(loss, c)
    ensures Dead(loss, summaries) ==
      if c == KnowledgeUpdate then Scaled(loss(c), ShareOf(summaries, c, Label))
      else if c == MultiSession then Scaled(loss(c), SynthesisShare(summaries))
      else 0.0
  {
    PartAt(loss, summaries, c, KnowledgeUpdate, Label);
    if c != MultiSession { assert Scaled(0.0, SynthesisShare(summaries)) == 0.0; }
  }

  lemma TailAt(f: Category -> real)
    ensures TailSum(f) == f(Contradiction) + f(Extraction) + f(Instruction) + f(Preference)
  {
  }

  /** What a tail category pays in parts of one owner. */
  lemma TailPays(loss: Category -> real, summaries: Summaries, c: Category, owner: Owner)
    requires OnlyLoses(loss, c)
    ensures TailSum(other => Part(loss, summaries, other, owner)) ==
      if c in {Contradiction, Extraction, Instruction, Preference} then Scaled(loss(c), ShareOf(summaries, c, owner)) else 0.0
  {
    TailAt(other => Part(loss, summaries, other, owner));
    PartAt(loss, summaries, c, Contradiction, owner);
    PartAt(loss, summaries, c, Extraction, owner);
    PartAt(loss, summaries, c, Instruction, owner);
    PartAt(loss, summaries, c, Preference, owner);
  }

  lemma ShapingIs(loss: Category -> real, summaries: Summaries)
    ensures Shaping(loss, summaries)
         == Part(loss, summaries, Summarization, Reader) + Part(loss, summaries, MultiSession, Reader)
            + Part(loss, summaries, Abstention, Reader) + TailSum(other => Part(loss, summaries, other, Reader))
  {
    TailAt(c => Part(loss, summaries, c, Reader));
    TailAt(other => Part(loss, summaries, other, Reader));
  }

  lemma DirectIs(loss: Category -> real, summaries: Summaries)
    ensures Direct(loss, summaries)
         == loss(EventOrdering) + loss(Temporal) + Part(loss, summaries, Summarization, Ours)
            + Part(loss, summaries, Abstention, Ours) + TailSum(other => Part(loss, summaries, other, Ours))
  {
    TailAt(c => Part(loss, summaries, c, Ours));
    TailAt(other => Part(loss, summaries, other, Ours));
  }

  /** Every audited category pays the reader's share, but for knowledge updates and the wholesale two. */
  lemma ShapingPays(loss: Category -> real, summaries: Summaries, c: Category)
    requires OnlyLoses(loss, c)
    ensures Shaping(loss, summaries) ==
      if c in {Summarization, MultiSession, Abstention, Contradiction, Extraction, Instruction, Preference}
      then Scaled(loss(c), ShareOf(summaries, c, Reader)) else 0.0
  {
    ShapingIs(loss, summaries);
    PartAt(loss, summaries, c, Summarization, Reader);
    PartAt(loss, summaries, c, MultiSession, Reader);
    PartAt(loss, summaries, c, Abstention, Reader);
    TailPays(loss, summaries, c, Reader);
  }

  /** The wholesale two pay everything, the others their own share. */
  lemma DirectPays(loss: Category -> real, summaries: Summaries, c: Category)
    requires OnlyLoses(loss, c)
    ensures Direct(loss, summaries) ==
      if c in {EventOrdering, Temporal} then loss(c)
      else if c in {Summarization, Abstention, Contradiction, Extraction, Instruction, Preference}
      then Scaled(loss(c), ShareOf(summaries, c, Ours)) else 0.0
  {
    DirectIs(loss, summaries);
    PartAt(loss, summaries, c, Summarization, Ours);
    PartAt(loss, summaries, c, Abstention, Ours);
    TailPays(loss, summaries, c, Ours);
  }

  /** The four tail categories are undiagnosed without an audit. */
  lemma UndiagnosedPays(loss: Category -> real, summaries: Summaries, c: Category)
    requires OnlyLoses(loss, c)
    ensures Undiagnosed(loss, summaries) ==
      if c in {Contradiction, Extraction, Instruction, Preference} && c !in summaries then loss(c) else 0.0
  {
    TailAt(other => Unaudited(loss, summaries, other));
    UnauditedAt(loss, summaries, c, Contradiction);
    UnauditedAt(loss, summaries, c, Extraction);
    UnauditedAt(loss, summaries, c, Instruction);
    UnauditedAt(loss, summaries, c, Preference);
  }

  lemma SharesAre(summaries: Summaries, c: Category)
    ensures c in summaries ==>
      && ShareOf(summaries, c, Ours) == Fraction(summaries[c].ours)
      && ShareOf(summaries, c, Reader) == Fraction(summaries[c].reader)
      && ShareOf(summaries, c, Label) == Fraction(summaries[c].label_)
      && (c == MultiSession ==> SynthesisShare(summaries) == Fraction(summaries[c].synthesis))
    ensures c !in summaries ==> forall owner :: ShareOf(summaries, c, owner) == 0.0
  {
  }

  /** Points lost only in retrieval, in a category counted by items, are all ours; lost only in the answer, all the reader's. */
  lemma LoneStagePays(loss: Category -> real, rows: Audit, c: Category, stage: Stage)
    requires OnlyLoses(loss, c) && c in {Summarization, Contradiction, Extraction} && c in rows
    requires IsLoneStage(rows[c], stage) && stage in {RetrievalLoss, AnswerLoss}
    ensures Direct(loss, SummariesOf(rows)) == if stage == RetrievalLoss then loss(c) else 0.0
    ensures Shaping(loss, SummariesOf(rows)) == if stage == AnswerLoss then loss(c) else 0.0
  {
    LoneStageShares(c, rows[c], stage);
    SharesAre(SummariesOf(rows), c);
    DirectPays(loss, SummariesOf(rows), c);
    ShapingPays(loss, SummariesOf(rows), c);
    AllOrNothing(loss(c));
  }

  lemma AllOrNothing(points: real)
    ensures Scaled(points, 0.0) == 0.0 && Scaled(points, 1.0) == points
  {
  }

  /** There are items, and all of them are at this stage. */
  ghost predicate IsLoneStage(rows: seq<Row>, stage: Stage) {
    && 0 < CountItems(rows) == CountAt(rows, stage)
    && forall other :: other != stage ==> CountAt(rows, other) == 0
  }

  lemma LoneStageShares(c: Category, rows: seq<Row>, stage: Stage)
    requires c in {Summarization, Contradiction, Extraction} && IsLoneStage(rows, stage)
    ensures Fraction(Attributed(c, rows).ours) == if stage == RetrievalLoss then 1.0 else 0.0
    ensures Fraction(Attributed(c, rows).reader) == if stage == AnswerLoss then 1.0 else 0.0
  {
    ItemSharesMean(c, rows);
    WholeOrNothing(Attributed(c, rows).ours, CountAt(rows, RetrievalLoss), CountItems(rows) as real);
    WholeOrNothing(Attributed(c, rows).reader, CountAt(rows, AnswerLoss), CountItems(rows) as real);
  }

  lemma WholeOrNothing(share: Share, count: nat, n: real)
    requires n > 0.0 && IsShare(share, count as real, n) && (count == 0 || count as real == n)
    ensures Fraction(share) == if count == 0 then 0.0 else 1.0
  {
    Cancel(Fraction(share), n);
  }

  lemma Cancel(x: real, n: real)
    requires n > 0.0
    ensures x * n == 0.0 ==> x == 0.0
    ensures x * n == n ==> x == 1.0
  {
  }

  // ---------------------------------------------------------------- what a category loses

  function Miss(scores: seq<real>): nat -> real {
    (i: nat) => if i < |scores| then 1.0 - scores[i] else 0.0
  }

  lemma {:induction false} ScoreSumMeans(scores: seq<real>)
    ensures |scores| as real - ScoreSum(scores) == Sum(Below(|scores|), Miss(scores))
  {
    if scores != [] {
      var n: nat := |scores| - 1;
      ScoreSumMeans(scores[..n]);
      SumsAgree(Below(n), Miss(scores[..n]), Miss(scores));
      SumAdd(Below(n), n, Miss(scores));
    }
  }

  /** A category's loss is ten points times the mean miss of its scores. */
  lemma LossMeans(scores: Scores, c: Category)
    requires c in scores && scores[c] != []
    ensures Loss(scores, c) * |scores[c]| as real == 10.0 * Sum(Below(|scores[c]|), Miss(scores[c]))
  {
    ScoreSumMeans(scores[c]);
    MeanMeans(scores[c]);
    Distribute(Mean(scores[c]), |scores[c]| as real);
  }

  lemma MeanMeans(scores: seq<real>)
    requires scores != []
    ensures Mean(scores) * |scores| as real == ScoreSum(scores)
  {
  }

  lemma Distribute(mean: real, n: real)
    ensures 10.0 * (1.0 - mean) * n == 10.0 * (n - mean * n)
  {
  }
}
