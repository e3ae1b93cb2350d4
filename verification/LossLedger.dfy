/** The recovery budget of a benchmark line: every lost point is assigned to one bucket.

    Exact arithmetic. The attribution of two categories stores deficits rounded to six digits, and the budget divides
    what is stored; that rounding can assign more points than were lost, and is modelled. Rounding a value only to
    report it is not.
*/
module LossLedger {
  import opened Wrappers
  import opened Sums

  datatype Category =
    | Summarization | KnowledgeUpdate | MultiSession | Abstention
    | Contradiction | Extraction | Instruction | Preference
    | EventOrdering | Temporal | Other(name: string)

  // ---------------------------------------------------------------- audited rows

  /** The one stage that loses a reference item, or none. */
  datatype Stage = SynthesisRequired | SourceMismatch | RetrievalLoss | AnswerLoss | Covered

  datatype Verdict = GoldNotExact | GoldPrecedes | Review
  datatype Target = TargetMismatch | TargetLost | TargetRetrieved

  datatype Row = Row(score: real, stages: seq<Stage>, dominant: bool, verdict: Option<Verdict>, target: Option<Target>)

  predicate ScoresInRange(rows: seq<Row>) {
    forall i :: 0 <= i < |rows| ==> 0.0 <= rows[i].score <= 1.0
  }

  // ---------------------------------------------------------------- counts

  function StageCount(stages: seq<Stage>, stage: Stage): nat {
    if stages == [] then 0
    else StageCount(stages[..|stages| - 1], stage) + if stages[|stages| - 1] == stage then 1 else 0
  }

  function ItemsAt(rows: seq<Row>, stage: Stage): nat {
    if rows == [] then 0 else ItemsAt(rows[..|rows| - 1], stage) + StageCount(rows[|rows| - 1].stages, stage)
  }

  function Items(rows: seq<Row>): nat {
    if rows == [] then 0 else Items(rows[..|rows| - 1]) + |rows[|rows| - 1].stages|
  }

  function ZeroRows(rows: seq<Row>): nat {
    if rows == [] then 0 else ZeroRows(rows[..|rows| - 1]) + if rows[|rows| - 1].score == 0.0 then 1 else 0
  }

  function DominantZeroRows(rows: seq<Row>): nat {
    if rows == [] then 0
    else DominantZeroRows(rows[..|rows| - 1])
         + if rows[|rows| - 1].score == 0.0 && rows[|rows| - 1].dominant then 1 else 0
  }

  predicate IsLabelDefect(row: Row) {
    row.verdict == Some(GoldPrecedes) || row.verdict == Some(GoldNotExact)
  }

  /** Verdicts are counted over the zero-score rows only. */
  function LabelDefects(rows: seq<Row>): nat {
    if rows == [] then 0
    else LabelDefects(rows[..|rows| - 1])
         + if rows[|rows| - 1].score == 0.0 && IsLabelDefect(rows[|rows| - 1]) then 1 else 0
  }

  datatype Owner = Ours | Label | Reader

  function TargetOwner(row: Row): Owner {
    match row.target
    case Some(TargetLost) => Ours
    case Some(TargetMismatch) => Label
    case _ => Reader
  }

  /** The score deficit of the rows an owner answers for. */
  function Deficit(rows: seq<Row>, owner: Owner): real {
    if rows == [] then 0.0
    else Deficit(rows[..|rows| - 1], owner)
         + if TargetOwner(rows[|rows| - 1]) == owner then 1.0 - rows[|rows| - 1].score else 0.0
  }

  // ---------------------------------------------------------------- rounding

  /** Rounding to the nearest integer, halves to the even one. */
  function Nearest(x: real): int {
    var below := x.Floor;
    var rest := x - below as real;
    if rest < 0.5 || (rest == 0.5 && below % 2 == 0) then below else below + 1
  }

  /** `round(x, 6)`. */
  function Round6(x: real): real {
    Nearest(x * 1000000.0) as real / 1000000.0
  }

  lemma RoundingIsMonotone(x: real, y: real)
    requires x <= y
    ensures Round6(x) <= Round6(y)
  {
    var a, b := x * 1000000.0, y * 1000000.0;
    assert a.Floor <= b.Floor;
    assert Nearest(a) <= Nearest(b);
  }

  /** The stored numbers of `_attribution`: what an owner answers for, and the whole. */
  function StoredDeficit(rows: seq<Row>, owner: Owner): real {
    Round6(Deficit(rows, owner))
  }

  function StoredTotal(rows: seq<Row>): real {
    Round6(Deficit(rows, Ours) + Deficit(rows, Label) + Deficit(rows, Reader))
  }

  lemma StoredDeficitRange(rows: seq<Row>, owner: Owner)
    requires ScoresInRange(rows)
    ensures 0.0 <= StoredDeficit(rows, owner) <= StoredTotal(rows)
  {
    DeficitsAreNotNegative(rows, Ours);
    DeficitsAreNotNegative(rows, Label);
    DeficitsAreNotNegative(rows, Reader);
    RoundingIsMonotone(0.0, Deficit(rows, owner));
    RoundingIsMonotone(Deficit(rows, owner), Deficit(rows, Ours) + Deficit(rows, Label) + Deficit(rows, Reader));
  }

  lemma {:induction false} StagesAreItems(stages: seq<Stage>)
    ensures StageCount(stages, RetrievalLoss) + StageCount(stages, AnswerLoss)
         + StageCount(stages, SynthesisRequired) <= |stages|
  {
    if stages != [] { StagesAreItems(stages[..|stages| - 1]); }
  }

  lemma {:induction false} LossesAreItems(rows: seq<Row>)
    ensures ItemsAt(rows, RetrievalLoss) + ItemsAt(rows, AnswerLoss) + ItemsAt(rows, SynthesisRequired) <= Items(rows)
  {
    if rows != [] {
      LossesAreItems(rows[..|rows| - 1]);
      StagesAreItems(rows[|rows| - 1].stages);
    }
  }

  lemma {:induction false} ZeroRowCounts(rows: seq<Row>)
    ensures DominantZeroRows(rows) <= ZeroRows(rows) && LabelDefects(rows) <= ZeroRows(rows)
  {
    if rows != [] { ZeroRowCounts(rows[..|rows| - 1]); }
  }

  lemma {:induction false} DeficitsAreNotNegative(rows: seq<Row>, owner: Owner)
    requires ScoresInRange(rows)
    ensures Deficit(rows, owner) >= 0.0
  {
    if rows != [] { DeficitsAreNotNegative(rows[..|rows| - 1], owner); }
  }

  // ---------------------------------------------------------------- attribution

  datatype Share = Share(count: real, denominator: real)

  /** `_attribution_share`. */
  function Fraction(share: Share): real {
    if share.denominator == 0.0 then 0.0 else share.count / share.denominator
  }

  datatype Attribution = Attribution(ours: Share, label_: Share, reader: Share, synthesis: Share)

  function Of(count: nat, denominator: nat): Share {
    Share(count as real, denominator as real)
  }

  /** The categories attributed by score deficit. */
  predicate ByDeficit(category: Category) {
    category.Instruction? || category.Preference?
  }

  /** `category_attribution`. */
  function Attributed(category: Category, rows: seq<Row>): Attribution {
    if ByDeficit(category) then
      var all := StoredTotal(rows);
      Attribution(Share(StoredDeficit(rows, Ours), all), Share(StoredDeficit(rows, Label), all),
                  Share(StoredDeficit(rows, Reader), all), Share(0.0, all))
    else
      var zero, dominant, items := ZeroRows(rows), DominantZeroRows(rows), Items(rows);
      Attribution(
        if category.Abstention? then Of(dominant, zero) else Of(ItemsAt(rows, RetrievalLoss), items),
        Of(LabelDefects(rows), zero),
        if category.Abstention? then Of(if zero < dominant then 0 else zero - dominant, zero)
        else Of(ItemsAt(rows, AnswerLoss), items),
        Of(ItemsAt(rows, SynthesisRequired), items))
  }

  /** The fraction of a category's loss that the budget assigns to a cause. */
  function Assigned(category: Category, a: Attribution): real {
    match category
    case KnowledgeUpdate => Fraction(a.label_)
    case MultiSession => Fraction(a.synthesis) + Fraction(a.reader)
    case EventOrdering => 1.0
    case Temporal => 1.0
    case Other(_) => 0.0
    case _ => Fraction(a.ours) + Fraction(a.reader)
  }

  /** No share is negative. */
  predicate HasShares(a: Attribution) {
    && Fraction(a.ours) >= 0.0 && Fraction(a.label_) >= 0.0
    && Fraction(a.reader) >= 0.0 && Fraction(a.synthesis) >= 0.0
  }

  /** No share is negative, and a category's assigned shares do not exceed one. */
  predicate IsFair(category: Category, a: Attribution) {
    HasShares(a) && Assigned(category, a) <= 1.0
  }

  /** The stored numbers do not give away more than the whole. */
  predicate StoredFits(rows: seq<Row>) {
    StoredDeficit(rows, Ours) + StoredDeficit(rows, Reader) <= StoredTotal(rows)
  }

  /** By how much the shares of the stored numbers exceed one. */
  function OverShare(rows: seq<Row>): real {
    if StoredFits(rows) || StoredTotal(rows) == 0.0 then 0.0
    else (StoredDeficit(rows, Ours) + StoredDeficit(rows, Reader) - StoredTotal(rows)) / StoredTotal(rows)
  }

  lemma TwoFractions(a: real, b: real, n: real)
    requires a >= 0.0 && b >= 0.0 && n >= 0.0 && a + b <= n
    ensures Fraction(Share(a, n)) >= 0.0 && Fraction(Share(b, n)) >= 0.0
    ensures Fraction(Share(a, n)) + Fraction(Share(b, n)) <= 1.0
  {
    if n > 0.0 { assert a / n + b / n == (a + b) / n <= 1.0; }
  }

  lemma OneFraction(a: real, n: real)
    requires 0.0 <= a <= n
    ensures 0.0 <= Fraction(Share(a, n)) <= 1.0
  {
    if n > 0.0 { assert a / n <= 1.0; }
  }

  lemma SumOfFractions(a: real, b: real, n: real)
    requires n > 0.0
    ensures Fraction(Share(a, n)) + Fraction(Share(b, n)) == 1.0 + (a + b - n) / n
  {
    assert a / n + b / n == (a + b) / n && (a + b - n) / n == (a + b) / n - n / n;
  }

  lemma Sign(a: real, n: real)
    requires n > 0.0
    ensures a / n > 0.0 <==> a > 0.0
  {
  }

  lemma DeficitShares(category: Category, rows: seq<Row>)
    requires ScoresInRange(rows) && ByDeficit(category)
    ensures HasShares(Attributed(category, rows))
    ensures OverShare(rows) >= 0.0 && (OverShare(rows) > 0.0 <==> !StoredFits(rows))
    ensures StoredFits(rows) ==> Assigned(category, Attributed(category, rows)) <= 1.0
    ensures !StoredFits(rows) ==> Assigned(category, Attributed(category, rows)) == 1.0 + OverShare(rows)
  {
    StoredDeficitRange(rows, Ours);
    StoredDeficitRange(rows, Label);
    StoredDeficitRange(rows, Reader);
    var o, r, n := StoredDeficit(rows, Ours), StoredDeficit(rows, Reader), StoredTotal(rows);
    OneFraction(o, n);
    OneFraction(r, n);
    OneFraction(StoredDeficit(rows, Label), n);
    OneFraction(0.0, n);
    if n > 0.0 {
      SumOfFractions(o, r, n);
      Sign(o + r - n, n);
    }
  }

  lemma CountSharesAreFair(category: Category, rows: seq<Row>)
    requires !ByDeficit(category) && !category.Abstention?
    ensures IsFair(category, Attributed(category, rows))
  {
    LossesAreItems(rows);
    ZeroRowCounts(rows);
    var n := Items(rows) as real;
    TwoFractions(LabelDefects(rows) as real, 0.0, ZeroRows(rows) as real);
    TwoFractions(ItemsAt(rows, SynthesisRequired) as real, ItemsAt(rows, AnswerLoss) as real, n);
    TwoFractions(ItemsAt(rows, RetrievalLoss) as real, ItemsAt(rows, AnswerLoss) as real, n);
  }

  lemma AbstentionSharesAreFair(rows: seq<Row>)
    ensures IsFair(Abstention, Attributed(Abstention, rows))
  {
    LossesAreItems(rows);
    ZeroRowCounts(rows);
    var zero, dominant := ZeroRows(rows), DominantZeroRows(rows);
    TwoFractions(LabelDefects(rows) as real, 0.0, zero as real);
    TwoFractions(ItemsAt(rows, SynthesisRequired) as real, 0.0, Items(rows) as real);
    TwoFractions(dominant as real, (zero - dominant) as real, zero as real);
  }

  /** For scores in range shares are never negative, and they exceed one exactly when rounded deficits overrun. */
  lemma AttributionsAreFair(category: Category, rows: seq<Row>)
    requires ScoresInRange(rows)
    ensures HasShares(Attributed(category, rows))
    ensures IsFair(category, Attributed(category, rows)) <==> ByDeficit(category) ==> StoredFits(rows)
  {
    match category
    case Instruction => DeficitShares(category, rows);
    case Preference => DeficitShares(category, rows);
    case Abstention => AbstentionSharesAreFair(rows);
    case _ => CountSharesAreFair(category, rows);
  }

  // ---------------------------------------------------------------- the budget

  function ScoreSum(scores: seq<real>): real {
    if scores == [] then 0.0 else ScoreSum(scores[..|scores| - 1]) + scores[|scores| - 1]
  }

  /** `_mean`. */
  function Mean(scores: seq<real>): real {
    if scores == [] then 0.0 else ScoreSum(scores) / |scores| as real
  }

  /** Points lost in a category: a tenth of a hundred, times the mean shortfall. */
  function Loss(scores: map<Category, seq<real>>, category: Category): real {
    if category in scores then 10.0 * (1.0 - Mean(scores[category])) else 0.0
  }

  const NAMED: set<Category> := {
    Summarization, KnowledgeUpdate, MultiSession, Abstention, Contradiction, Extraction, Instruction, Preference,
    EventOrdering, Temporal}

  datatype Buckets = Buckets(dead: real, reader: real, ours: real, undiagnosed: real, residual: real)

  datatype LedgerError = NotConserved | DoubleCounted

  datatype Result<T, E> = Ok(value: T) | Err(error: E)

  type Summaries = map<Category, Attribution>

  function ShareOf(summaries: Summaries, category: Category, owner: Owner): real {
    if category !in summaries then 0.0
    else match owner
      case Ours => Fraction(summaries[category].ours)
      case Label => Fraction(summaries[category].label_)
      case Reader => Fraction(summaries[category].reader)
  }

  function SynthesisShare(summaries: Summaries): real {
    if MultiSession in summaries then Fraction(summaries[MultiSession].synthesis) else 0.0
  }

  function Unaudited(loss: Category -> real, summaries: Summaries, category: Category): real {
    if category in summaries then 0.0 else loss(category)
  }

  function Scaled(points: real, share: real): real {
    points * share
  }

  /** `loss(category) * share`. */
  function Part(loss: Category -> real, summaries: Summaries, category: Category, owner: Owner): real {
    Scaled(loss(category), ShareOf(summaries, category, owner))
  }

  function Dead(loss: Category -> real, summaries: Summaries): real {
    Part(loss, summaries, KnowledgeUpdate, Label) + Scaled(loss(MultiSession), SynthesisShare(summaries))
  }

  function TailSum(part: Category -> real): real {
    part(Contradiction) + part(Extraction) + part(Instruction) + part(Preference)
  }

  function Shaping(loss: Category -> real, summaries: Summaries): real {
    Part(loss, summaries, Summarization, Reader) + Part(loss, summaries, MultiSession, Reader)
      + Part(loss, summaries, Abstention, Reader) + TailSum(c => Part(loss, summaries, c, Reader))
  }

  function Direct(loss: Category -> real, summaries: Summaries): real {
    loss(EventOrdering) + loss(Temporal)
      + Part(loss, summaries, Summarization, Ours) + Part(loss, summaries, Abstention, Ours)
      + TailSum(c => Part(loss, summaries, c, Ours))
  }

  function Undiagnosed(loss: Category -> real, summaries: Summaries): real {
    TailSum(c => Unaudited(loss, summaries, c))
  }

  function LossOf(scores: map<Category, seq<real>>): Category -> real {
    (c: Category) => Loss(scores, c)
  }

  ghost function TotalLoss(scores: map<Category, seq<real>>): real {
    Sum(scores.Keys, LossOf(scores))
  }

  // ---------------------------------------------------------------- no point is counted twice

  ghost predicate ScoresAreFair(scores: map<Category, seq<real>>) {
    forall c :: c in scores ==> forall i :: 0 <= i < |scores[c]| ==> 0.0 <= scores[c][i] <= 1.0
  }

  ghost predicate LossesAreFair(loss: Category -> real) {
    forall c :: loss(c) >= 0.0
  }

  ghost predicate FairAt(summaries: Summaries, c: Category) {
    c in summaries ==> IsFair(c, summaries[c])
  }

  ghost predicate SummariesAreFair(summaries: Summaries) {
    forall c :: FairAt(summaries, c)
  }

  ghost predicate HaveShares(summaries: Summaries) {
    forall c :: c in summaries ==> HasShares(summaries[c])
  }

  lemma {:induction false} ScoreSumRange(scores: seq<real>)
    requires forall i :: 0 <= i < |scores| ==> 0.0 <= scores[i] <= 1.0
    ensures 0.0 <= ScoreSum(scores) <= |scores| as real
  {
    if scores != [] {
      var n := |scores| - 1;
      assert forall i :: 0 <= i < n ==> scores[..n][i] == scores[i];
      ScoreSumRange(scores[..n]);
    }
  }

  lemma LossIsNotNegative(scores: map<Category, seq<real>>, c: Category)
    requires ScoresAreFair(scores)
    ensures Loss(scores, c) >= 0.0
  {
    if c in scores && scores[c] != [] {
      ScoreSumRange(scores[c]);
      QuotientRange(ScoreSum(scores[c]), |scores[c]|);
    }
  }

  lemma QuotientRange(x: real, n: nat)
    requires 0.0 <= x <= n as real && n > 0
    ensures 0.0 <= x / n as real <= 1.0
  {
  }

  /** What the buckets take of one category's loss. */
  function Taken(loss: Category -> real, summaries: Summaries, c: Category): real {
    match c
    case KnowledgeUpdate => Part(loss, summaries, c, Label)
    case MultiSession => Scaled(loss(c), SynthesisShare(summaries)) + Part(loss, summaries, c, Reader)
    case EventOrdering => loss(c)
    case Temporal => loss(c)
    case Summarization => Part(loss, summaries, c, Reader) + Part(loss, summaries, c, Ours)
    case Abstention => Part(loss, summaries, c, Reader) + Part(loss, summaries, c, Ours)
    case Other(_) => 0.0
    case _ => Part(loss, summaries, c, Reader) + Part(loss, summaries, c, Ours) + Unaudited(loss, summaries, c)
  }

  lemma TwoParts(points: real, a: real, b: real)
    requires points >= 0.0 && a >= 0.0 && b >= 0.0 && a + b <= 1.0
    ensures 0.0 <= Scaled(points, a) && 0.0 <= Scaled(points, b) && Scaled(points, a) + Scaled(points, b) <= points
  {
    Product(points, a);
    Product(points, b);
    Product(points, 1.0 - (a + b));
    assert points * (1.0 - (a + b)) == points - (points * a + points * b);
  }

  lemma Product(a: real, b: real)
    requires a >= 0.0 && b >= 0.0
    ensures Scaled(a, b) >= 0.0
  {
  }

  /** The shares a category's buckets use. */
  lemma SharesOfCategory(summaries: Summaries, c: Category)
    requires FairAt(summaries, c)
    ensures ShareOf(summaries, c, Ours) >= 0.0 && ShareOf(summaries, c, Reader) >= 0.0
    ensures 0.0 <= ShareOf(summaries, c, Label)
    ensures c.KnowledgeUpdate? ==> ShareOf(summaries, c, Label) <= 1.0
    ensures c.MultiSession? ==>
      SynthesisShare(summaries) >= 0.0 && SynthesisShare(summaries) + ShareOf(summaries, c, Reader) <= 1.0
    ensures !c.KnowledgeUpdate? && !c.MultiSession? && !c.EventOrdering? && !c.Temporal? && !c.Other? ==>
      ShareOf(summaries, c, Reader) + ShareOf(summaries, c, Ours) <= 1.0
  {
  }

  lemma UnauditedHasNoShare(loss: Category -> real, summaries: Summaries, c: Category)
    requires c !in summaries
    ensures Part(loss, summaries, c, Reader) == 0.0 && Part(loss, summaries, c, Ours) == 0.0
  {
  }

  lemma LabelTaken(loss: Category -> real, summaries: Summaries)
    requires LossesAreFair(loss) && FairAt(summaries, KnowledgeUpdate)
    ensures Taken(loss, summaries, KnowledgeUpdate) <= loss(KnowledgeUpdate)
  {
    SharesOfCategory(summaries, KnowledgeUpdate);
    TwoParts(loss(KnowledgeUpdate), ShareOf(summaries, KnowledgeUpdate, Label), 0.0);
  }

  lemma SynthesisTaken(loss: Category -> real, summaries: Summaries)
    requires LossesAreFair(loss) && FairAt(summaries, MultiSession)
    ensures Taken(loss, summaries, MultiSession) <= loss(MultiSession)
  {
    SharesOfCategory(summaries, MultiSession);
    TwoParts(loss(MultiSession), SynthesisShare(summaries), ShareOf(summaries, MultiSession, Reader));
  }

  lemma SharedTaken(loss: Category -> real, summaries: Summaries, c: Category)
    requires LossesAreFair(loss) && FairAt(summaries, c)
    requires !c.KnowledgeUpdate? && !c.MultiSession? && !c.EventOrdering? && !c.Temporal? && !c.Other?
    ensures Taken(loss, summaries, c) <= loss(c)
  {
    if c in summaries {
      SharesOfCategory(summaries, c);
      TwoParts(loss(c), ShareOf(summaries, c, Reader), ShareOf(summaries, c, Ours));
    } else {
      UnauditedHasNoShare(loss, summaries, c);
    }
  }

  lemma TakenIsWithinLoss(loss: Category -> real, summaries: Summaries, c: Category)
    requires LossesAreFair(loss) && FairAt(summaries, c)
    ensures Taken(loss, summaries, c) <= loss(c)
  {
    match c
    case KnowledgeUpdate => LabelTaken(loss, summaries);
    case MultiSession => SynthesisTaken(loss, summaries);
    case EventOrdering =>
    case Temporal =>
    case Other(_) =>
    case _ => SharedTaken(loss, summaries, c);
  }

  function TakenOfNamed(loss: Category -> real, summaries: Summaries): real {
    Dead(loss, summaries) + Shaping(loss, summaries) + Direct(loss, summaries) + Undiagnosed(loss, summaries)
  }

  function LossOfNamed(loss: Category -> real): real {
    loss(Summarization) + loss(KnowledgeUpdate) + loss(MultiSession) + loss(Abstention)
      + TailSum(loss) + loss(EventOrdering) + loss(Temporal)
  }

  lemma BucketsAreTaken(loss: Category -> real, summaries: Summaries)
    ensures TakenOfNamed(loss, summaries) ==
      Taken(loss, summaries, Summarization) + Taken(loss, summaries, KnowledgeUpdate)
        + Taken(loss, summaries, MultiSession) + Taken(loss, summaries, Abstention)
        + TailSum(c => Taken(loss, summaries, c))
        + Taken(loss, summaries, EventOrdering) + Taken(loss, summaries, Temporal)
  {
  }

  lemma BucketsAreWithinNamedLoss(loss: Category -> real, summaries: Summaries)
    requires LossesAreFair(loss) && SummariesAreFair(summaries)
    ensures TakenOfNamed(loss, summaries) <= LossOfNamed(loss)
  {
    BucketsAreTaken(loss, summaries);
    forall c ensures Taken(loss, summaries, c) <= loss(c) { TakenIsWithinLoss(loss, summaries, c); }
  }

  lemma SumOfFive(s: set<Category>, a: Category, b: Category, c: Category, d: Category, e: Category, loss: Category -> real)
    requires a !in s && b !in s + {a} && c !in s + {a, b} && d !in s + {a, b, c} && e !in s + {a, b, c, d}
    ensures Sum(s + {a, b, c, d, e}, loss) == Sum(s, loss) + loss(a) + loss(b) + loss(c) + loss(d) + loss(e)
  {
    SumAdd(s, a, loss);
    SumAdd(s + {a}, b, loss);
    assert s + {a} + {b} == s + {a, b};
    SumAdd(s + {a, b}, c, loss);
    assert s + {a, b} + {c} == s + {a, b, c};
    SumAdd(s + {a, b, c}, d, loss);
    assert s + {a, b, c} + {d} == s + {a, b, c, d};
    SumAdd(s + {a, b, c, d}, e, loss);
    assert s + {a, b, c, d} + {e} == s + {a, b, c, d, e};
  }

  lemma NamedLossIsSum(loss: Category -> real)
    ensures Sum(NAMED, loss) ==
      loss(Summarization) + loss(KnowledgeUpdate) + loss(MultiSession) + loss(Abstention) + TailSum(loss)
        + loss(EventOrdering) + loss(Temporal)
  {
    var half: set<Category> := {} + {Summarization, KnowledgeUpdate, MultiSession, Abstention, EventOrdering};
    SumOfFive({}, Summarization, KnowledgeUpdate, MultiSession, Abstention, EventOrdering, loss);
    SumOfFive(half, Contradiction, Extraction, Instruction, Preference, Temporal, loss);
    assert half + {Contradiction, Extraction, Instruction, Preference, Temporal} == NAMED;
  }

  lemma {:induction false} SumOfNothing(s: set<Category>, loss: Category -> real)
    requires forall c :: c in s ==> loss(c) == 0.0
    ensures Sum(s, loss) == 0.0
  {
    if s != {} {
      var c :| c in s && Sum(s, loss) == loss(c) + Sum(s - {c}, loss);
      SumOfNothing(s - {c}, loss);
    }
  }

  lemma LossesOfScoresAreFair(scores: map<Category, seq<real>>)
    requires ScoresAreFair(scores)
    ensures LossesAreFair(LossOf(scores))
  {
    forall c ensures LossOf(scores)(c) >= 0.0 { LossIsNotNegative(scores, c); }
  }

  /** The ten named categories lose no more than all categories together. */
  lemma NamedLossIsWithinTotal(keys: set<Category>, loss: Category -> real)
    requires LossesAreFair(loss) && forall c :: c !in keys ==> loss(c) == 0.0
    ensures LossOfNamed(loss) <= Sum(keys, loss)
  {
    NamedLossIsSum(loss);
    SumUnion(NAMED, keys - NAMED, loss);
    SumUnion(keys, NAMED - keys, loss);
    assert NAMED + (keys - NAMED) == keys + (NAMED - keys);
    SumIsNotNegative(keys - NAMED, loss);
    SumOfNothing(NAMED - keys, loss);
  }

  /** For scores in range and fair summaries the residual is never negative. */
  lemma NothingIsDoubleCounted(scores: map<Category, seq<real>>, summaries: Summaries)
    requires ScoresAreFair(scores) && SummariesAreFair(summaries)
    ensures TakenOfNamed(LossOf(scores), summaries) <= TotalLoss(scores)
  {
    LossesOfScoresAreFair(scores);
    BucketsAreWithinNamedLoss(LossOf(scores), summaries);
    NamedLossIsWithinTotal(scores.Keys, LossOf(scores));
  }

  // ---------------------------------------------------------------- the estimate

  /** The points of the direct-engine components, in listing order. */
  function Components(loss: Category -> real, summaries: Summaries): seq<real> {
    [loss(EventOrdering), loss(Temporal),
     Part(loss, summaries, Summarization, Ours), Part(loss, summaries, Abstention, Ours),
     Part(loss, summaries, Contradiction, Ours), Part(loss, summaries, Extraction, Ours),
     Part(loss, summaries, Instruction, Ours), Part(loss, summaries, Preference, Ours)]
  }

  method SumComponents(points: seq<real>) returns (total: real)
    requires |points| == 8
    ensures total == points[0] + points[1] + points[2] + points[3] + points[4] + points[5] + points[6] + points[7]
  {
    total := ((points[0] + points[1]) + (points[2] + points[3])) + ((points[4] + points[5]) + (points[6] + points[7]));
  }

  method SumLosses(scores: map<Category, seq<real>>) returns (total: real)
    ensures total == TotalLoss(scores)
  {
    total := 0.0;
    var todo := scores.Keys;
    var loss := LossOf(scores);
    while todo != {}
      invariant todo <= scores.Keys
      invariant total == Sum(scores.Keys - todo, loss)
      decreases todo
    {
      var c := Pick(todo);
      SumAdd(scores.Keys - todo, c, loss);
      assert (scores.Keys - todo) + {c} == scores.Keys - (todo - {c});
      total := total + loss(c);
      todo := todo - {c};
    }
    assert scores.Keys - {} == scores.Keys;
  }

  const TOLERANCE: real := 0.000000001

  function Closed(b: Buckets): real {
    b.dead + b.reader + b.ours + b.undiagnosed + b.residual
  }

  /** What is left over becomes the residual, unless the buckets overrun the total. */
  method CloseLedger(dead: real, reader: real, ours: real, undiagnosed: real, total: real)
    returns (r: Result<Buckets, LedgerError>)
    ensures r.Err? <==> total - (dead + reader + ours + undiagnosed) < -TOLERANCE
    ensures r.Err? ==> r.error == DoubleCounted
    ensures r.Ok? ==> r.value == Buckets(dead, reader, ours, undiagnosed, r.value.residual) && r.value.residual >= 0.0
    ensures r.Ok? ==> var taken := dead + reader + ours + undiagnosed;
      Closed(r.value) == if total < taken then taken else total
  {
    var residual := total - (dead + reader + ours + undiagnosed);
    if residual < -TOLERANCE { return Err(DoubleCounted); }
    r := Ok(Buckets(dead, reader, ours, undiagnosed, if residual < 0.0 then 0.0 else residual));
  }

  lemma ComponentsAreDirect(loss: Category -> real, summaries: Summaries)
    ensures var p := Components(loss, summaries);
      |p| == 8 && p[0] + p[1] + p[2] + p[3] + p[4] + p[5] + p[6] + p[7] == Direct(loss, summaries)
  {
  }

  /** `ceiling_estimate`: the five buckets, or one of its two consistency errors. */
  method CeilingEstimate(scores: map<Category, seq<real>>, summaries: Summaries) returns (r: Result<Buckets, LedgerError>)
    ensures r.Err? <==> TotalLoss(scores) - TakenOfNamed(LossOf(scores), summaries) < -TOLERANCE
    ensures r.Err? ==> r.error == DoubleCounted
    ensures r.Ok? ==>
      && r.value.dead == Dead(LossOf(scores), summaries) && r.value.reader == Shaping(LossOf(scores), summaries)
      && r.value.ours == Direct(LossOf(scores), summaries)
      && r.value.undiagnosed == Undiagnosed(LossOf(scores), summaries)
      && r.value.residual >= 0.0
    ensures r.Ok? ==> var taken := TakenOfNamed(LossOf(scores), summaries);
      Closed(r.value) == if TotalLoss(scores) < taken then taken else TotalLoss(scores)
  {
    var loss := LossOf(scores);
    var dead, reader, ours := Dead(loss, summaries), Shaping(loss, summaries), Direct(loss, summaries);
    ComponentsAreDirect(loss, summaries);
    var components := SumComponents(Components(loss, summaries));
    if components - ours > TOLERANCE || ours - components > TOLERANCE { return Err(NotConserved); }
    var undiagnosed := Undiagnosed(loss, summaries);
    var total := SumLosses(scores);
    r := CloseLedger(dead, reader, ours, undiagnosed, total);
  }

  lemma PartIsNotNegative(loss: Category -> real, summaries: Summaries, c: Category, owner: Owner)
    requires LossesAreFair(loss) && HaveShares(summaries)
    ensures Part(loss, summaries, c, owner) >= 0.0
  {
    Product(loss(c), ShareOf(summaries, c, owner));
  }

  /** No bucket is negative. */
  lemma BucketsAreNotNegative(loss: Category -> real, summaries: Summaries)
    requires LossesAreFair(loss) && HaveShares(summaries)
    ensures Dead(loss, summaries) >= 0.0 && Shaping(loss, summaries) >= 0.0
    ensures Direct(loss, summaries) >= 0.0 && Undiagnosed(loss, summaries) >= 0.0
  {
    forall c, owner ensures Part(loss, summaries, c, owner) >= 0.0 { PartIsNotNegative(loss, summaries, c, owner); }
    SynthesisIsNotNegative(loss, summaries);
  }

  lemma SynthesisIsNotNegative(loss: Category -> real, summaries: Summaries)
    requires LossesAreFair(loss) && HaveShares(summaries)
    ensures Scaled(loss(MultiSession), SynthesisShare(summaries)) >= 0.0
  {
    Product(loss(MultiSession), SynthesisShare(summaries));
  }

  // ---------------------------------------------------------------- from rows to the budget

  type Audit = map<Category, seq<Row>>
  type Scores = map<Category, seq<real>>

  /** The attribution of every audited category. */
  function SummariesOf(rows: Audit): Summaries {
    map c | c in rows :: Attributed(c, rows[c])
  }

  /** The points that rounding assigns beyond a category's loss. */
  function ExcessAt(scores: Scores, rows: Audit, c: Category): real {
    if ByDeficit(c) && c in rows then Scaled(Loss(scores, c), OverShare(rows[c])) else 0.0
  }

  function RoundingExcess(scores: Scores, rows: Audit): real {
    ExcessAt(scores, rows, Instruction) + ExcessAt(scores, rows, Preference)
  }

  /** The points of a category that no bucket takes. */
  function LeftAt(scores: Scores, rows: Audit, c: Category): real {
    var left := Loss(scores, c) - Taken(LossOf(scores), SummariesOf(rows), c);
    if left < 0.0 then 0.0 else left
  }

  function LeftEach(scores: Scores, rows: Audit): Category -> real {
    (c: Category) => LeftAt(scores, rows, c)
  }

  ghost function LeftUnassigned(scores: Scores, rows: Audit): real {
    Sum(NAMED + scores.Keys, LeftEach(scores, rows))
  }

  ghost predicate InRange(scores: Scores, rows: Audit) {
    ScoresAreFair(scores) && forall c :: c in rows ==> ScoresInRange(rows[c])
  }

  lemma Spread(points: real, a: real, b: real)
    ensures Scaled(points, a) + Scaled(points, b) == Scaled(points, a + b)
    ensures Scaled(points, 1.0 + a) == points + Scaled(points, a)
    ensures Scaled(points, 0.0) == 0.0
  {
  }

  lemma OverrunTakesMore(scores: Scores, rows: Audit, c: Category)
    requires InRange(scores, rows) && ByDeficit(c) && c in rows && !StoredFits(rows[c])
    ensures Taken(LossOf(scores), SummariesOf(rows), c) == Loss(scores, c) + ExcessAt(scores, rows, c)
    ensures ExcessAt(scores, rows, c) >= 0.0
  {
    var a := Attributed(c, rows[c]);
    DeficitShares(c, rows[c]);
    LossIsNotNegative(scores, c);
    Spread(Loss(scores, c), Fraction(a.reader), Fraction(a.ours));
    Spread(Loss(scores, c), OverShare(rows[c]), 0.0);
    Product(Loss(scores, c), OverShare(rows[c]));
  }

  /** In every category, loss and rounding excess are what is taken and what is left. */
  lemma CategoryBalances(scores: Scores, rows: Audit, c: Category)
    requires InRange(scores, rows)
    ensures Loss(scores, c) + ExcessAt(scores, rows, c)
         == Taken(LossOf(scores), SummariesOf(rows), c) + LeftAt(scores, rows, c)
  {
    if ByDeficit(c) && c in rows && !StoredFits(rows[c]) {
      OverrunTakesMore(scores, rows, c);
    } else {
      if c in rows { AttributionsAreFair(c, rows[c]); }
      LossesOfScoresAreFair(scores);
      TakenIsWithinLoss(LossOf(scores), SummariesOf(rows), c);
      Spread(Loss(scores, c), 0.0, 0.0);
    }
  }

  lemma {:induction false} SumsBalance(s: set<Category>, a: Category -> real, b: Category -> real,
                                       x: Category -> real, y: Category -> real)
    requires forall c :: c in s ==> a(c) + b(c) == x(c) + y(c)
    ensures Sum(s, a) + Sum(s, b) == Sum(s, x) + Sum(s, y)
  {
    if s != {} {
      var c :| c in s;
      var rest := s - {c};
      SumsBalance(rest, a, b, x, y);
      SumAdd(rest, c, a);
      SumAdd(rest, c, b);
      SumAdd(rest, c, x);
      SumAdd(rest, c, y);
      assert s == rest + {c};
    }
  }

  /** A value that only named categories have adds up to the named ten. */
  lemma SumOfNamed(s: set<Category>, f: Category -> real)
    requires NAMED <= s && forall c :: c in s - NAMED ==> f(c) == 0.0
    ensures Sum(s, f) == LossOfNamed(f)
  {
    NamedLossIsSum(f);
    SumUnion(NAMED, s - NAMED, f);
    SumOfNothing(s - NAMED, f);
    assert s == NAMED + (s - NAMED);
  }

  lemma SumOverKeys(scores: Scores)
    ensures Sum(NAMED + scores.Keys, LossOf(scores)) == TotalLoss(scores)
  {
    SumUnion(scores.Keys, NAMED - scores.Keys, LossOf(scores));
    SumOfNothing(NAMED - scores.Keys, LossOf(scores));
    assert NAMED + scores.Keys == scores.Keys + (NAMED - scores.Keys);
  }

  function TakenEach(scores: Scores, rows: Audit): Category -> real {
    (c: Category) => Taken(LossOf(scores), SummariesOf(rows), c)
  }

  function ExcessEach(scores: Scores, rows: Audit): Category -> real {
    (c: Category) => ExcessAt(scores, rows, c)
  }

  lemma TakenAddsUp(scores: Scores, rows: Audit)
    ensures Sum(NAMED + scores.Keys, TakenEach(scores, rows)) == TakenOfNamed(LossOf(scores), SummariesOf(rows))
  {
    SumOfNamed(NAMED + scores.Keys, TakenEach(scores, rows));
    BucketsAreTaken(LossOf(scores), SummariesOf(rows));
  }

  lemma ExcessAddsUp(scores: Scores, rows: Audit)
    ensures Sum(NAMED + scores.Keys, ExcessEach(scores, rows)) == RoundingExcess(scores, rows)
  {
    SumOfNamed(NAMED + scores.Keys, ExcessEach(scores, rows));
  }

  /** The whole ledger: what is lost beyond the buckets is what they leave, less what rounding assigned too much. */
  lemma LedgerBalances(scores: Scores, rows: Audit)
    requires InRange(scores, rows)
    ensures TotalLoss(scores) - TakenOfNamed(LossOf(scores), SummariesOf(rows))
         == LeftUnassigned(scores, rows) - RoundingExcess(scores, rows)
  {
    var s := NAMED + scores.Keys;
    EachBalances(scores, rows);
    SumsBalance(s, LossOf(scores), ExcessEach(scores, rows), TakenEach(scores, rows), LeftEach(scores, rows));
    SumOverKeys(scores);
    TakenAddsUp(scores, rows);
    ExcessAddsUp(scores, rows);
  }

  lemma EachBalances(scores: Scores, rows: Audit)
    requires InRange(scores, rows)
    ensures forall c :: LossOf(scores)(c) + ExcessEach(scores, rows)(c)
                     == TakenEach(scores, rows)(c) + LeftEach(scores, rows)(c)
  {
    forall c ensures LossOf(scores)(c) + ExcessEach(scores, rows)(c)
                  == TakenEach(scores, rows)(c) + LeftEach(scores, rows)(c)
    {
      CategoryBalances(scores, rows, c);
    }
  }

  /** `analyze`: attribute every audited category from its rows, then estimate.

      The double-counting error is raised exactly when rounding assigns, by more than the tolerance, more than is
      left. Otherwise the buckets add up to the total loss and what rounding assigned beyond it.
  */
  method Analyze(rows: Audit, scores: Scores) returns (r: Result<Buckets, LedgerError>)
    requires InRange(scores, rows)
    ensures r.Err? <==> RoundingExcess(scores, rows) > LeftUnassigned(scores, rows) + 0.000000001
    ensures r.Err? ==> r.error == DoubleCounted
    ensures r.Ok? ==>
      && r.value.dead == Dead(LossOf(scores), SummariesOf(rows)) >= 0.0
      && r.value.reader == Shaping(LossOf(scores), SummariesOf(rows)) >= 0.0
      && r.value.ours == Direct(LossOf(scores), SummariesOf(rows)) >= 0.0
      && r.value.undiagnosed == Undiagnosed(LossOf(scores), SummariesOf(rows)) >= 0.0
      && r.value.residual >= 0.0
    ensures r.Ok? ==> TotalLoss(scores) <= Closed(r.value) <= TotalLoss(scores) + TOLERANCE
    ensures r.Ok? && RoundingExcess(scores, rows) <= LeftUnassigned(scores, rows) ==>
      Closed(r.value) == TotalLoss(scores)
  {
    var summaries := SummariesOf(rows);
    r := CeilingEstimate(scores, summaries);
    LedgerBalances(scores, rows);
    BucketsOfRows(scores, rows);
  }

  lemma BucketsOfRows(scores: Scores, rows: Audit)
    requires InRange(scores, rows)
    ensures Dead(LossOf(scores), SummariesOf(rows)) >= 0.0 && Shaping(LossOf(scores), SummariesOf(rows)) >= 0.0
    ensures Direct(LossOf(scores), SummariesOf(rows)) >= 0.0 && Undiagnosed(LossOf(scores), SummariesOf(rows)) >= 0.0
  {
    forall c | c in rows ensures HasShares(Attributed(c, rows[c])) { AttributionsAreFair(c, rows[c]); }
    LossesOfScoresAreFair(scores);
    BucketsAreNotNegative(LossOf(scores), SummariesOf(rows));
  }

  // ---------------------------------------------------------------- when rounding overruns

  lemma NothingLeftIsNotNegative(scores: Scores, rows: Audit)
    ensures LeftUnassigned(scores, rows) >= 0.0
  {
    SumIsNotNegative(NAMED + scores.Keys, LeftEach(scores, rows));
  }

  /** When stored deficits fit in both categories, nothing is assigned twice, so no error can be raised. */
  lemma FittingDeficitsCloseTheLedger(scores: Scores, rows: Audit)
    requires InRange(scores, rows) && forall c :: c in rows && ByDeficit(c) ==> StoredFits(rows[c])
    ensures RoundingExcess(scores, rows) == 0.0 <= LeftUnassigned(scores, rows)
  {
    NothingLeftIsNotNegative(scores, rows);
    forall c | c in rows && ByDeficit(c) ensures ExcessAt(scores, rows, c) == 0.0 { Spread(Loss(scores, c), 0.0, 0.0); }
  }

  /** Stored deficits overrun their total by one millionth at most. */
  lemma OverrunIsOneStep(rows: seq<Row>)
    requires ScoresInRange(rows)
    ensures StoredDeficit(rows, Ours) + StoredDeficit(rows, Reader) <= StoredTotal(rows) + 0.000001
  {
    DeficitsAreNotNegative(rows, Label);
    RoundedParts(Deficit(rows, Ours), Deficit(rows, Reader),
                 Deficit(rows, Ours) + Deficit(rows, Label) + Deficit(rows, Reader));
  }

  lemma RoundedParts(x: real, y: real, z: real)
    requires x + y <= z
    ensures Round6(x) + Round6(y) <= Round6(z) + 0.000001
  {
    NearestParts(x * 1000000.0, y * 1000000.0, z * 1000000.0);
  }

  lemma NearestParts(x: real, y: real, z: real)
    requires x + y <= z
    ensures Nearest(x) as real + Nearest(y) as real <= Nearest(z) as real + 1.0
  {
    NearestIsNear(x);
    NearestIsNear(y);
    NearestIsNear(z);
    var excess := Nearest(x) + Nearest(y) - Nearest(z);
    assert excess as real <= 1.5;
  }

  lemma NearestIsNear(x: real)
    ensures x - 0.5 <= Nearest(x) as real <= x + 0.5
  {
  }

  lemma NoLossNothingLeft(scores: Scores, rows: Audit, c: Category)
    requires Loss(scores, c) == 0.0
    ensures LeftAt(scores, rows, c) == 0.0
  {
    forall share ensures Scaled(0.0, share) == 0.0 {}
  }

  const THIRD: Row := Row(1.0 / 3.0, [], false, None, Some(TargetLost))

  /** Two rows of score a third, one of them lost in retrieval. */
  function ThirdRows(): seq<Row> {
    [THIRD, THIRD.(target := Some(TargetRetrieved))]
  }

  lemma ThirdDeficits(owner: Owner)
    ensures Deficit(ThirdRows(), owner) == if owner.Label? then 0.0 else 2.0 / 3.0
  {
    var rows := ThirdRows();
    assert rows[..1] == [THIRD] && [THIRD][..0] == [];
    assert Deficit([THIRD], owner) == if owner.Ours? then 2.0 / 3.0 else 0.0;
  }

  lemma RoundedThirds()
    ensures Round6(2.0 / 3.0) == 0.666667 && Round6(4.0 / 3.0) == 1.333333
  {
    assert Nearest(2000000.0 / 3.0) == 666667;
    assert Nearest(4000000.0 / 3.0) == 1333333;
  }

  lemma ThirdsOverrun()
    ensures StoredDeficit(ThirdRows(), Ours) == StoredDeficit(ThirdRows(), Reader) == 0.666667
    ensures StoredTotal(ThirdRows()) == 1.333333
  {
    ThirdDeficits(Ours);
    ThirdDeficits(Label);
    ThirdDeficits(Reader);
    RoundedThirds();
  }

  lemma ThirdsLose()
    ensures Mean([1.0 / 3.0, 1.0 / 3.0]) == 1.0 / 3.0
  {
    var scores := [1.0 / 3.0, 1.0 / 3.0];
    assert scores[..1] == [1.0 / 3.0] && [1.0 / 3.0][..0] == [];
    assert ScoreSum([1.0 / 3.0]) == 1.0 / 3.0;
  }

  lemma OverrunLeavesNothing(scores: Scores, rows: Audit)
    requires InRange(scores, rows) && scores.Keys == rows.Keys == {Instruction} && !StoredFits(rows[Instruction])
    ensures LeftUnassigned(scores, rows) == 0.0
  {
    OverrunTakesMore(scores, rows, Instruction);
    forall c | c in NAMED + scores.Keys ensures LeftEach(scores, rows)(c) == 0.0 {
      if c != Instruction { NoLossNothingLeft(scores, rows, c); }
    }
    SumOfNothing(NAMED + scores.Keys, LeftEach(scores, rows));
  }

  /** An overrun category that alone loses points raises the error as soon as its excess passes the tolerance. */
  lemma LoneOverrunDoubleCounts(scores: Scores, rows: Audit)
    requires InRange(scores, rows) && scores.Keys == rows.Keys == {Instruction} && !StoredFits(rows[Instruction])
    ensures RoundingExcess(scores, rows) == Scaled(Loss(scores, Instruction), OverShare(rows[Instruction]))
    ensures LeftUnassigned(scores, rows) == 0.0
  {
    OverrunLeavesNothing(scores, rows);
  }

  /** With scores in range the double-counting error can be raised: these rows alone are enough. */
  lemma RoundingCanDoubleCount()
    ensures var scores, rows := map[Instruction := [1.0 / 3.0, 1.0 / 3.0]], map[Instruction := ThirdRows()];
      InRange(scores, rows) && RoundingExcess(scores, rows) > LeftUnassigned(scores, rows) + TOLERANCE
  {
    var scores: Scores, rows: Audit := map[Instruction := [1.0 / 3.0, 1.0 / 3.0]], map[Instruction := ThirdRows()];
    ThirdsOverrun();
    ThirdsLose();
    LoneOverrunDoubleCounts(scores, rows);
    ThirdExcess(Loss(scores, Instruction), OverShare(ThirdRows()));
  }

  lemma ThirdExcess(points: real, share: real)
    requires points == 20.0 / 3.0 && share == 0.000001 / 1.333333
    ensures Scaled(points, share) > TOLERANCE
  {
  }
}
