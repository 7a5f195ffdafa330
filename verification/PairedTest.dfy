/**
 The paired test of `benchmarks/analyze.py` and the outcome vectors that
 `benchmarks/h2h_artifact.py` publishes so that it can be recomputed.
 */
module PairedTest {
  import opened Fractions
  import opened Sets
  import opened Binomial

  /** `correct` of an adversarial question is None in the source and read as false. */
  datatype Outcome = Outcome(id: string, adversarial: bool, correct: bool, abstained: bool)

  type Arm = map<string, Outcome>

  /** Accuracy over the answerable questions, or refusal over the adversarial ones. */
  datatype Axis = Accuracy | Abstention

  datatype Result<T> = DuplicateQuestion | DifferentQuestions | DifferentLabels | Ok(value: T)

  datatype Table = Table(bothCorrect: nat, bothWrong: nat, aOnly: nat, bOnly: nat)

  predicate Selects(axis: Axis, o: Outcome) {
    match axis case Accuracy => !o.adversarial case Abstention => o.adversarial
  }

  predicate Scored(axis: Axis, o: Outcome) {
    match axis case Accuracy => o.correct case Abstention => o.abstained
  }

  // ---------------------------------------------------------------- indexing

  /** The first n outcomes by question id, refusing a repeated one. */
  function Index(outcomes: seq<Outcome>, n: nat): Result<Arm>
    requires n <= |outcomes|
  {
    if n == 0 then Ok(map[])
    else
      match Index(outcomes, n - 1)
      case Ok(arm) =>
        if outcomes[n - 1].id in arm then DuplicateQuestion else Ok(arm[outcomes[n - 1].id := outcomes[n - 1]])
      case refused => refused
  }

  function IndexOf(outcomes: seq<Outcome>): Result<Arm> {
    Index(outcomes, |outcomes|)
  }

  method ByQuestionId(outcomes: seq<Outcome>) returns (r: Result<Arm>)
    ensures r == IndexOf(outcomes)
  {
    var indexed: Arm := map[];
    for i := 0 to |outcomes|
      invariant Index(outcomes, i) == Ok(indexed)
    {
      if outcomes[i].id in indexed {
        IndexStaysRefused(outcomes, i + 1);
        return DuplicateQuestion;
      }
      indexed := indexed[outcomes[i].id := outcomes[i]];
    }
    return Ok(indexed);
  }

  lemma {:induction false} IndexStaysRefused(outcomes: seq<Outcome>, n: nat)
    requires n <= |outcomes| && Index(outcomes, n) == DuplicateQuestion
    ensures IndexOf(outcomes) == DuplicateQuestion
    decreases |outcomes| - n
  {
    if n < |outcomes| { IndexStaysRefused(outcomes, n + 1); }
  }

  ghost function QuestionIds(outcomes: seq<Outcome>, n: nat): set<string>
    requires n <= |outcomes|
  {
    set i | 0 <= i < n :: outcomes[i].id
  }

  ghost predicate HoldsFirst(arm: Arm, outcomes: seq<Outcome>, n: nat)
    requires n <= |outcomes|
  {
    && arm.Keys == QuestionIds(outcomes, n)
    && forall i :: 0 <= i < n ==> outcomes[i].id in arm && arm[outcomes[i].id] == outcomes[i]
  }

  /** An arm loads when it has as many ids as outcomes, and then holds each outcome under its id. */
  lemma {:induction false} IndexExactly(outcomes: seq<Outcome>, n: nat)
    requires n <= |outcomes|
    ensures |QuestionIds(outcomes, n)| <= n
    ensures Index(outcomes, n).Ok? <==> |QuestionIds(outcomes, n)| == n
    ensures Index(outcomes, n).Ok? ==> HoldsFirst(Index(outcomes, n).value, outcomes, n)
  {
    if n == 0 {
      assert QuestionIds(outcomes, 0) == {};
    } else {
      IndexExactly(outcomes, n - 1);
      var before, last := QuestionIds(outcomes, n - 1), outcomes[n - 1];
      assert QuestionIds(outcomes, n) == before + {last.id};
      if Index(outcomes, n - 1).Ok? && last.id !in before { HoldsGrows(Index(outcomes, n - 1).value, outcomes, n); }
      hide QuestionIds;
    }
  }

  ghost predicate FirstsDiffer(outcomes: seq<Outcome>, n: nat)
    requires n <= |outcomes|
  {
    forall i, j :: 0 <= i < j < n ==> outcomes[i].id != outcomes[j].id
  }

  lemma OneMoreId(outcomes: seq<Outcome>, n: nat)
    requires 1 <= n <= |outcomes|
    ensures QuestionIds(outcomes, n) == QuestionIds(outcomes, n - 1) + {outcomes[n - 1].id}
    ensures FirstsDiffer(outcomes, n) <==>
            FirstsDiffer(outcomes, n - 1) && outcomes[n - 1].id !in QuestionIds(outcomes, n - 1)
  {
    if FirstsDiffer(outcomes, n - 1) && outcomes[n - 1].id !in QuestionIds(outcomes, n - 1) {
      assert forall i :: 0 <= i < n - 1 ==> outcomes[i].id in QuestionIds(outcomes, n - 1);
    }
  }

  lemma {:induction false} DistinctExactly(outcomes: seq<Outcome>, n: nat)
    requires n <= |outcomes|
    ensures |QuestionIds(outcomes, n)| <= n
    ensures |QuestionIds(outcomes, n)| == n <==> FirstsDiffer(outcomes, n)
  {
    if n == 0 {
      assert QuestionIds(outcomes, 0) == {};
    } else {
      DistinctExactly(outcomes, n - 1);
      OneMoreId(outcomes, n);
      hide QuestionIds, FirstsDiffer;
    }
  }

  lemma HoldsGrows(arm: Arm, outcomes: seq<Outcome>, n: nat)
    requires 1 <= n <= |outcomes| && HoldsFirst(arm, outcomes, n - 1) && outcomes[n - 1].id !in arm
    ensures HoldsFirst(arm[outcomes[n - 1].id := outcomes[n - 1]], outcomes, n)
  {
    assert QuestionIds(outcomes, n) == QuestionIds(outcomes, n - 1) + {outcomes[n - 1].id};
  }

  /** The order of an artifact's outcomes does not matter. */
  lemma IndexIgnoresOrder(a: seq<Outcome>, b: seq<Outcome>)
    requires multiset(a) == multiset(b)
    ensures IndexOf(a) == IndexOf(b)
  {
    IndexExactly(a, |a|);
    IndexExactly(b, |b|);
    NeverOtherRefusal(a, |a|);
    NeverOtherRefusal(b, |b|);
    hide Index, HoldsFirst;
    SameElements(a, b);
    SameIds(a, b);
    SameIds(b, a);
    assert QuestionIds(a, |a|) == QuestionIds(b, |b|);
    if IndexOf(a).Ok? { SameArm(a, b, IndexOf(a).value, IndexOf(b).value); }
  }

  lemma SameElements(a: seq<Outcome>, b: seq<Outcome>)
    requires multiset(a) == multiset(b)
    ensures |a| == |b| && (forall o :: o in a ==> o in b) && (forall o :: o in b ==> o in a)
  {
    assert |a| == |multiset(a)| == |b|;
    assert forall o :: (o in a <==> o in multiset(a)) && (o in b <==> o in multiset(b));
  }

  lemma SameArm(a: seq<Outcome>, b: seq<Outcome>, x: Arm, y: Arm)
    requires HoldsFirst(x, a, |a|) && HoldsFirst(y, b, |b|) && x.Keys == y.Keys && forall o :: o in a ==> o in b
    ensures x == y
  {
    forall q | q in x ensures x[q] == y[q] {
      var i :| 0 <= i < |a| && a[i].id == q;
      assert a[i] in b;
      var j :| 0 <= j < |b| && b[j] == a[i];
    }
  }

  lemma SameIds(a: seq<Outcome>, b: seq<Outcome>)
    requires forall o :: o in a ==> o in b
    ensures QuestionIds(a, |a|) <= QuestionIds(b, |b|)
  {
    forall x | x in QuestionIds(a, |a|) ensures x in QuestionIds(b, |b|) {
      var i :| 0 <= i < |a| && a[i].id == x;
      assert a[i] in b;
    }
  }

  lemma {:induction false} NeverOtherRefusal(outcomes: seq<Outcome>, n: nat)
    requires n <= |outcomes|
    ensures Index(outcomes, n).Ok? || Index(outcomes, n) == DuplicateQuestion
  {
    if n > 0 { NeverOtherRefusal(outcomes, n - 1); }
  }

  // ---------------------------------------------------------------- the table

  ghost predicate SameLabels(a: Arm, b: Arm) {
    forall q :: q in a && q in b ==> a[q].adversarial == b[q].adversarial
  }

  /** The questions the axis keeps, with arm A scored `good` and arm B scored `other`. */
  ghost function Cell(a: Arm, b: Arm, axis: Axis, good: bool, other: bool): set<string> {
    set q | q in a && q in b && Selects(axis, a[q]) && Scored(axis, a[q]) == good && Scored(axis, b[q]) == other
  }

  ghost function Cells(a: Arm, b: Arm, axis: Axis): Table {
    Table(|Cell(a, b, axis, true, true)|, |Cell(a, b, axis, false, false)|,
          |Cell(a, b, axis, true, false)|, |Cell(a, b, axis, false, true)|)
  }

  ghost function PairedTable(a: seq<Outcome>, b: seq<Outcome>, axis: Axis): Result<Table> {
    match (IndexOf(a), IndexOf(b))
    case (Ok(x), Ok(y)) =>
      if x.Keys != y.Keys then DifferentQuestions
      else if !SameLabels(x, y) then DifferentLabels
      else Ok(Cells(x, y, axis))
    case _ => DuplicateQuestion
  }

  function Bump(t: Table, good: bool, other: bool): Table {
    if good && other then t.(bothCorrect := t.bothCorrect + 1)
    else if good then t.(aOnly := t.aOnly + 1)
    else if other then t.(bOnly := t.bOnly + 1)
    else t.(bothWrong := t.bothWrong + 1)
  }

  /** The arms restricted to the questions already counted. */
  ghost function Part(a: Arm, done: set<string>): Arm {
    map q | q in a && q in done :: a[q]
  }

  method PairedCells(a: seq<Outcome>, b: seq<Outcome>, axis: Axis) returns (r: Result<Table>)
    ensures r == PairedTable(a, b, axis)
  {
    var ra := ByQuestionId(a);
    NeverOtherRefusal(a, |a|);
    if !ra.Ok? { return DuplicateQuestion; }
    var rb := ByQuestionId(b);
    NeverOtherRefusal(b, |b|);
    if !rb.Ok? { return DuplicateQuestion; }
    var x, y := ra.value, rb.value;
    if x.Keys != y.Keys { return DifferentQuestions; }
    r := CountCells(x, y, axis);
  }

  /** The loop over the shared questions, in any order. */
  method CountCells(x: Arm, y: Arm, axis: Axis) returns (r: Result<Table>)
    requires x.Keys == y.Keys
    ensures r == if SameLabels(x, y) then Ok(Cells(x, y, axis)) else DifferentLabels
  {
    hide Part, Cells;
    var table := Table(0, 0, 0, 0);
    var todo := x.Keys;
    NoneOrAll(x, x.Keys - todo);
    NoCells(Part(x, x.Keys - todo), y, axis);
    while todo != {}
      invariant todo <= x.Keys
      invariant forall q :: q in x && q !in todo ==> x[q].adversarial == y[q].adversarial
      invariant table == Cells(Part(x, x.Keys - todo), y, axis)
      decreases todo
    {
      var q :| q in todo;
      if x[q].adversarial != y[q].adversarial { return DifferentLabels; }
      CountOneMore(x, y, axis, x.Keys - todo, q);
      assert x.Keys - (todo - {q}) == x.Keys - todo + {q};
      todo := todo - {q};
      if Selects(axis, x[q]) { table := Bump(table, Scored(axis, x[q]), Scored(axis, y[q])); }
    }
    NoneOrAll(x, x.Keys - todo);
    return Ok(table);
  }

  lemma NoneOrAll(a: Arm, done: set<string>)
    ensures done == {} ==> Part(a, done) == map[]
    ensures a.Keys <= done ==> Part(a, done) == a
  {
  }

  lemma NoCells(a: Arm, b: Arm, axis: Axis)
    requires a == map[]
    ensures Cells(a, b, axis) == Table(0, 0, 0, 0)
  {
    assert forall good, other :: Cell(a, b, axis, good, other) == {};
  }

  lemma CountOneMore(a: Arm, b: Arm, axis: Axis, done: set<string>, q: string)
    requires q in a && q in b && q !in done
    ensures Cells(Part(a, done + {q}), b, axis) ==
            if Selects(axis, a[q]) then Bump(Cells(Part(a, done), b, axis), Scored(axis, a[q]), Scored(axis, b[q]))
            else Cells(Part(a, done), b, axis)
  {
    CellGrows(a, b, axis, done, q, true, true);
    CellGrows(a, b, axis, done, q, true, false);
    CellGrows(a, b, axis, done, q, false, true);
    CellGrows(a, b, axis, done, q, false, false);
    hide Cell, Selects, Scored, Part;
  }

  lemma CellMembers(a: Arm, b: Arm, axis: Axis, done: set<string>, good: bool, other: bool)
    ensures forall q :: q in Cell(Part(a, done), b, axis, good, other) <==>
      q in a && q in done && q in b && Selects(axis, a[q]) && Scored(axis, a[q]) == good && Scored(axis, b[q]) == other
  {
    hide Selects, Scored;
  }

  lemma CellGrows(a: Arm, b: Arm, axis: Axis, done: set<string>, q: string, good: bool, other: bool)
    requires q in a && q in b && q !in done
    ensures var counts := Selects(axis, a[q]) && Scored(axis, a[q]) == good && Scored(axis, b[q]) == other;
      |Cell(Part(a, done + {q}), b, axis, good, other)|
      == |Cell(Part(a, done), b, axis, good, other)| + if counts then 1 else 0
  {
    hide Selects, Scored, Cell, Part;
    CellMembers(a, b, axis, done, good, other);
    CellMembers(a, b, axis, done + {q}, good, other);
    OneMore(Cell(Part(a, done), b, axis, good, other), Cell(Part(a, done + {q}), b, axis, good, other), q,
            Selects(axis, a[q]) && Scored(axis, a[q]) == good && Scored(axis, b[q]) == other);
  }

  // ---------------------------------------------------------------- what the table means

  ghost function Selected(a: Arm, axis: Axis): set<string> {
    set q | q in a && Selects(axis, a[q])
  }

  ghost function Good(a: Arm, axis: Axis): set<string> {
    set q | q in a && Selects(axis, a[q]) && Scored(axis, a[q])
  }

  lemma DisjointUnion<T>(a: set<T>, b: set<T>, whole: set<T>)
    requires a !! b && whole == a + b
    ensures |whole| == |a| + |b|
  {
  }

  /** The four cells count every selected question once; each row of the table is one arm's score. */
  lemma CellsCountOnce(a: Arm, b: Arm, axis: Axis)
    requires a.Keys == b.Keys && SameLabels(a, b)
    ensures var t := Cells(a, b, axis);
      && t.bothCorrect + t.bothWrong + t.aOnly + t.bOnly == |Selected(a, axis)|
      && t.bothCorrect + t.aOnly == |Good(a, axis)|
      && t.bothCorrect + t.bOnly == |Good(b, axis)|
      && Selected(a, axis) == Selected(b, axis)
  {
    CellSets(a, b, axis);
    hide Cell, Good, Selected, SameLabels;
    var tt, tf := Cell(a, b, axis, true, true), Cell(a, b, axis, true, false);
    var ft, ff := Cell(a, b, axis, false, true), Cell(a, b, axis, false, false);
    DisjointUnion(tt, tf, Good(a, axis));
    DisjointUnion(tt, ft, Good(b, axis));
    DisjointUnion(ft, ff, ft + ff);
    DisjointUnion(Good(a, axis), ft + ff, Selected(a, axis));
  }

  lemma CellSets(a: Arm, b: Arm, axis: Axis)
    requires a.Keys == b.Keys && SameLabels(a, b)
    ensures var tt, tf := Cell(a, b, axis, true, true), Cell(a, b, axis, true, false);
      var ft, ff := Cell(a, b, axis, false, true), Cell(a, b, axis, false, false);
      && tt !! tf && Good(a, axis) == tt + tf
      && tt !! ft && Good(b, axis) == tt + ft
      && ft !! ff && Good(a, axis) !! ft + ff
      && Selected(a, axis) == Selected(b, axis) == Good(a, axis) + (ft + ff)
  {
    assert forall q :: q in a ==> Selects(axis, a[q]) == Selects(axis, b[q]);
    hide Selects, Scored;
  }

  /** `_rate`: the share of the answerable questions an arm got right; the source raises on none. */
  ghost function Rate(a: Arm): real
    requires Selected(a, Accuracy) != {}
  {
    |Good(a, Accuracy)| as real / |Selected(a, Accuracy)| as real
  }

  lemma RateExactly(a: Arm)
    requires Selected(a, Accuracy) != {}
    ensures var n := |set q | q in a && !a[q].adversarial|;
      && n == |Selected(a, Accuracy)| > 0
      && Rate(a) == |set q | q in a && !a[q].adversarial && a[q].correct| as real / n as real
  {
    assert Selected(a, Accuracy) == set q | q in a && !a[q].adversarial;
    assert Good(a, Accuracy) == set q | q in a && !a[q].adversarial && a[q].correct;
  }

  /** The published margin is the difference of the discordant cells over the number of pairs. */
  lemma MarginIsDiscordance(a: Arm, b: Arm)
    requires a.Keys == b.Keys && SameLabels(a, b) && Selected(a, Accuracy) != {} && Selected(b, Accuracy) != {}
    ensures var t := Cells(a, b, Accuracy);
      var n := t.bothCorrect + t.bothWrong + t.aOnly + t.bOnly;
      && n > 0 && Rate(a) - Rate(b) == (t.aOnly - t.bOnly) as real / n as real
      && n == |set q | q in a && !a[q].adversarial|
      && Rate(a) == |set q | q in a && !a[q].adversarial && a[q].correct| as real / n as real
      && Rate(b) == |set q | q in b && !b[q].adversarial && b[q].correct| as real / n as real
  {
    RateExactly(a);
    RateExactly(b);
    CellsCountOnce(a, b, Accuracy);
    hide Cells;
    var t, n := Cells(a, b, Accuracy), |Selected(a, Accuracy)|;
    RatesDiffer(|Good(a, Accuracy)|, |Good(b, Accuracy)|, n);
    assert |Good(a, Accuracy)| - |Good(b, Accuracy)| == t.aOnly - t.bOnly;
  }

  lemma RatesDiffer(x: nat, y: nat, n: nat)
    requires n > 0
    ensures x as real / n as real - y as real / n as real == (x - y) as real / n as real
  {
    var a, b, k := x as real, y as real, n as real;
    assert a / k == Ratio(a, k) && b / k == Ratio(b, k) && (a - b) / k == Ratio(a - b, k);
    hide Ratio, Mul;
    SameDenominator(b, a, k);
    assert (x - y) as real == a - b;
  }

  // ---------------------------------------------------------------- the test statistic

  const EXACT_MAX_DISCORDANT := 25

  datatype Test = ExactBinomial | ChiSquared

  datatype Report = Report(statistic: real, pValue: real, test: Test)

  /** The continuity-corrected chi-square statistic. */
  function Corrected(difference: nat, discordant: nat): real
    requires discordant > 0
  {
    (difference as real - 1.0) * (difference as real - 1.0) / discordant as real
  }

  /** `_mcnemar_from_discordant`; `survival` is the upper tail of chi-square on one degree of freedom. */
  function McNemar(aOnly: nat, bOnly: nat, survival: real -> real): Report {
    var discordant := aOnly + bOnly;
    if discordant < EXACT_MAX_DISCORDANT then Report(aOnly as real, TwoSided(aOnly, discordant), ExactBinomial)
    else
      var statistic := Corrected(Binomial.Abs(aOnly - bOnly), discordant);
      Report(statistic, survival(statistic), ChiSquared)
  }

  /**
   What a report says of its table: below 25 discordant pairs, A's own cell and the probability
   under a fair coin of a split at least as uneven; from 25 on, the continuity-corrected statistic
   and its upper tail.
   */
  ghost predicate ReportFits(t: Table, r: Report, survival: real -> real) {
    var n, gap := t.aOnly + t.bOnly, if t.aOnly < t.bOnly then t.bOnly - t.aOnly else t.aOnly - t.bOnly;
    && (n == 0 ==> r == Report(0.0, 1.0, ExactBinomial))
    && (1 <= n < 25 ==> r.test.ExactBinomial? && r.statistic == t.aOnly as real &&
                        r.pValue == ExtremeMass(n, gap, n + 1) as real / Pow2(n) as real)
    && (n >= 25 ==> r.test.ChiSquared? && r.pValue == survival(r.statistic) && IsCorrected(r.statistic, n, gap))
  }

  ghost predicate IsCorrected(statistic: real, n: nat, gap: nat) {
    statistic * n as real == (gap as real - 1.0) * (gap as real - 1.0)
  }

  lemma McNemarFits(t: Table, survival: real -> real)
    ensures ReportFits(t, McNemar(t.aOnly, t.bOnly, survival), survival)
  {
    hide Corrected, IsCorrected, ExtremeMass, Pow2;
    var n, gap := t.aOnly + t.bOnly, if t.aOnly < t.bOnly then t.bOnly - t.aOnly else t.aOnly - t.bOnly;
    if 1 <= n < 25 { TwoSidedIsExtremeProbability(t.aOnly, n); }
    if n >= 25 { CorrectedTimes(gap, n); }
    if n > 0 { hide TwoSided; }
  }

  lemma CorrectedTimes(difference: nat, discordant: nat)
    requires discordant > 0
    ensures IsCorrected(Corrected(difference, discordant), discordant, difference)
  {
  }

  /** The four cells on the accuracy axis: answerable questions by who was correct. */
  ghost predicate AccuracyCells(x: Arm, y: Arm, t: Table) {
    && t.bothCorrect == |set q | q in x && q in y && !x[q].adversarial && x[q].correct && y[q].correct|
    && t.aOnly == |set q | q in x && q in y && !x[q].adversarial && x[q].correct && !y[q].correct|
    && t.bOnly == |set q | q in x && q in y && !x[q].adversarial && !x[q].correct && y[q].correct|
    && t.bothWrong == |set q | q in x && q in y && !x[q].adversarial && !x[q].correct && !y[q].correct|
  }

  /** And on the refusal axis: adversarial questions by who abstained. */
  ghost predicate AbstentionCells(x: Arm, y: Arm, t: Table) {
    && t.bothCorrect == |set q | q in x && q in y && x[q].adversarial && x[q].abstained && y[q].abstained|
    && t.aOnly == |set q | q in x && q in y && x[q].adversarial && x[q].abstained && !y[q].abstained|
    && t.bOnly == |set q | q in x && q in y && x[q].adversarial && !x[q].abstained && y[q].abstained|
    && t.bothWrong == |set q | q in x && q in y && x[q].adversarial && !x[q].abstained && !y[q].abstained|
  }

  lemma CellsAreOfTheAxis(x: Arm, y: Arm)
    ensures AccuracyCells(x, y, Cells(x, y, Accuracy)) && AbstentionCells(x, y, Cells(x, y, Abstention))
  {
    AccuracySets(x, y);
    AbstentionSets(x, y);
  }

  lemma AccuracySets(x: Arm, y: Arm)
    ensures AccuracyCells(x, y, Cells(x, y, Accuracy))
  {
    assert Cell(x, y, Accuracy, true, true) ==
           set q | q in x && q in y && !x[q].adversarial && x[q].correct && y[q].correct;
    assert Cell(x, y, Accuracy, true, false) ==
           set q | q in x && q in y && !x[q].adversarial && x[q].correct && !y[q].correct;
    assert Cell(x, y, Accuracy, false, true) ==
           set q | q in x && q in y && !x[q].adversarial && !x[q].correct && y[q].correct;
    assert Cell(x, y, Accuracy, false, false) ==
           set q | q in x && q in y && !x[q].adversarial && !x[q].correct && !y[q].correct;
  }

  lemma AbstentionSets(x: Arm, y: Arm)
    ensures AbstentionCells(x, y, Cells(x, y, Abstention))
  {
    assert Cell(x, y, Abstention, true, true) ==
           set q | q in x && q in y && x[q].adversarial && x[q].abstained && y[q].abstained;
    assert Cell(x, y, Abstention, true, false) ==
           set q | q in x && q in y && x[q].adversarial && x[q].abstained && !y[q].abstained;
    assert Cell(x, y, Abstention, false, true) ==
           set q | q in x && q in y && x[q].adversarial && !x[q].abstained && y[q].abstained;
    assert Cell(x, y, Abstention, false, false) ==
           set q | q in x && q in y && x[q].adversarial && !x[q].abstained && !y[q].abstained;
  }

  /** The outcomes by question id, which hold one outcome for each id of the list. */
  ghost predicate IsArm(x: Arm, outcomes: seq<Outcome>) {
    && (forall i :: 0 <= i < |outcomes| ==> outcomes[i].id in x && x[outcomes[i].id] == outcomes[i])
    && (forall q :: q in x ==> x[q] in outcomes && x[q].id == q)
  }

  ghost predicate DistinctQuestions(outcomes: seq<Outcome>) {
    FirstsDiffer(outcomes, |outcomes|)
  }

  /** `paired_mcnemar` and `paired_abstention_mcnemar`: from two lists of outcomes to the table and its report. */
  method PairedReport(a: seq<Outcome>, b: seq<Outcome>, axis: Axis, survival: real -> real)
    returns (r: Result<(Table, Report)>, ghost x: Arm, ghost y: Arm)
    ensures r == DuplicateQuestion <==> !DistinctQuestions(a) || !DistinctQuestions(b)
    ensures r != DuplicateQuestion ==> IsArm(x, a) && IsArm(y, b)
    ensures r != DuplicateQuestion ==> (r == DifferentQuestions <==> x.Keys != y.Keys)
    ensures r.Ok? <==> DistinctQuestions(a) && DistinctQuestions(b) && x.Keys == y.Keys &&
                       forall q :: q in x && q in y ==> x[q].adversarial == y[q].adversarial
    ensures r.Ok? ==> ReportFits(r.value.0, r.value.1, survival)
    ensures r.Ok? && axis.Accuracy? ==> AccuracyCells(x, y, r.value.0)
    ensures r.Ok? && axis.Abstention? ==> AbstentionCells(x, y, r.value.0)
  {
    hide IndexOf, Cells, McNemar, ReportFits, AccuracyCells, AbstentionCells;
    ArmsExactly(a);
    ArmsExactly(b);
    x, y := map[], map[];
    if IndexOf(a).Ok? && IndexOf(b).Ok? { x, y := IndexOf(a).value, IndexOf(b).value; }
    var table := PairedCells(a, b, axis);
    match table
    case DuplicateQuestion => return DuplicateQuestion, x, y;
    case DifferentQuestions => return DifferentQuestions, x, y;
    case DifferentLabels => return DifferentLabels, x, y;
    case Ok(t) =>
      McNemarFits(t, survival);
      CellsAreOfTheAxis(x, y);
      return Ok((t, McNemar(t.aOnly, t.bOnly, survival))), x, y;
  }

  lemma ArmsExactly(outcomes: seq<Outcome>)
    ensures IndexOf(outcomes).Ok? <==> DistinctQuestions(outcomes)
    ensures IndexOf(outcomes).Ok? ==> IsArm(IndexOf(outcomes).value, outcomes)
    ensures IndexOf(outcomes).Ok? || IndexOf(outcomes) == DuplicateQuestion
  {
    IndexExactly(outcomes, |outcomes|);
    NeverOtherRefusal(outcomes, |outcomes|);
    DistinctExactly(outcomes, |outcomes|);
    hide Index, QuestionIds;
  }

  /**
   Swapping the arms swaps the discordant cells and keeps the rest, so it keeps the p-value. The
   reported statistic is kept too except in the exact branch, where it is A's own cell.
   */
  lemma SwappingArms(a: seq<Outcome>, b: seq<Outcome>, axis: Axis, survival: real -> real)
    requires PairedTable(a, b, axis).Ok?
    ensures var t := PairedTable(a, b, axis).value;
      && PairedTable(b, a, axis) == Ok(Table(t.bothCorrect, t.bothWrong, t.bOnly, t.aOnly))
      && McNemar(t.aOnly, t.bOnly, survival).pValue == McNemar(t.bOnly, t.aOnly, survival).pValue
      && (McNemar(t.aOnly, t.bOnly, survival) == McNemar(t.bOnly, t.aOnly, survival)
          <==> t.aOnly == t.bOnly || t.aOnly + t.bOnly >= EXACT_MAX_DISCORDANT)
  {
    var x, y := IndexOf(a).value, IndexOf(b).value;
    hide IndexOf, McNemar;
    CellsSwap(x, y, axis);
    var t := Cells(x, y, axis);
    hide Cells;
    McNemarSwaps(t.aOnly, t.bOnly, survival);
  }

  lemma CellsSwap(x: Arm, y: Arm, axis: Axis)
    requires x.Keys == y.Keys && SameLabels(x, y)
    ensures var t := Cells(x, y, axis);
      SameLabels(y, x) && Cells(y, x, axis) == Table(t.bothCorrect, t.bothWrong, t.bOnly, t.aOnly)
  {
    assert forall q :: q in x ==> Selects(axis, x[q]) == Selects(axis, y[q]);
    hide Selects, Scored;
    assert Cell(x, y, axis, true, true) == Cell(y, x, axis, true, true);
    assert Cell(x, y, axis, false, false) == Cell(y, x, axis, false, false);
    assert Cell(x, y, axis, true, false) == Cell(y, x, axis, false, true);
    assert Cell(x, y, axis, false, true) == Cell(y, x, axis, true, false);
  }

  lemma McNemarSwaps(a: nat, b: nat, survival: real -> real)
    ensures McNemar(a, b, survival).pValue == McNemar(b, a, survival).pValue
    ensures McNemar(a, b, survival) == McNemar(b, a, survival) <==> a == b || a + b >= EXACT_MAX_DISCORDANT
  {
    TwoSidedSymmetric(a, a + b);
    assert Binomial.Abs(a - b) == Binomial.Abs(b - a);
    hide TwoSided, Binomial.Abs, Corrected;
    if a + b >= EXACT_MAX_DISCORDANT {
      assert McNemar(a, b, survival) == McNemar(b, a, survival);
    }
  }

  /** Without the label check the table would depend on which arm is called A. */
  lemma LabelCheckIsNeeded()
    ensures var q := "q";
      var a, b := map[q := Outcome(q, false, true, false)], map[q := Outcome(q, true, false, false)];
      Cells(a, b, Accuracy).aOnly == 1 && Cells(b, a, Accuracy) == Table(0, 0, 0, 0)
  {
    var q := "q";
    var a, b := map[q := Outcome(q, false, true, false)], map[q := Outcome(q, true, false, false)];
    assert Cell(a, b, Accuracy, true, false) == {q};
    assert forall good, other :: Cell(b, a, Accuracy, good, other) == {};
  }

  /** Reordering either artifact changes nothing. */
  lemma PairedTestIgnoresOrder(a: seq<Outcome>, b: seq<Outcome>, c: seq<Outcome>, d: seq<Outcome>, axis: Axis)
    requires multiset(a) == multiset(c) && multiset(b) == multiset(d)
    ensures PairedTable(a, b, axis) == PairedTable(c, d, axis)
  {
    IndexIgnoresOrder(a, c);
    IndexIgnoresOrder(b, d);
  }

  // ---------------------------------------------------------------- the published vector

  datatype Line = Line(q: string, recall: bool, mem0: bool)

  /** `answerable`. */
  ghost function Answerable(a: Arm): map<string, bool> {
    map q | q in a && !a[q].adversarial :: a[q].correct
  }

  /** `_outcome_vector` over the sorted shared ids; any listing of them gives the same counts. */
  ghost function OutcomeVector(a: Arm, b: Arm, listing: seq<string>): seq<Line>
    requires forall q :: q in listing ==> q in Answerable(a) && q in Answerable(b)
  {
    seq(|listing|, i requires 0 <= i < |listing| =>
      assert listing[i] in listing;
      Line(listing[i], Answerable(a)[listing[i]], Answerable(b)[listing[i]]))
  }

  /** The table a reader recomputes from the first n lines of a vector. */
  function Recount(lines: seq<Line>, n: nat): Table
    requires n <= |lines|
  {
    if n == 0 then Table(0, 0, 0, 0) else Bump(Recount(lines, n - 1), lines[n - 1].recall, lines[n - 1].mem0)
  }

  ghost function Firsts(listing: seq<string>, n: nat): set<string>
    requires n <= |listing|
  {
    set i | 0 <= i < n :: listing[i]
  }

  lemma FirstsGrow(listing: seq<string>, n: nat)
    requires n < |listing|
    ensures Firsts(listing, n + 1) == Firsts(listing, n) + {listing[n]}
    ensures (forall i, j :: 0 <= i < j < |listing| ==> listing[i] != listing[j]) ==> listing[n] !in Firsts(listing, n)
  {
  }

  lemma NoneFirst(a: Arm, listing: seq<string>)
    ensures Part(a, Firsts(listing, 0)) == map[]
  {
    assert Firsts(listing, 0) == {};
  }

  /** A line of the vector says how each arm was scored on its question. */
  lemma LineAt(a: Arm, b: Arm, listing: seq<string>, k: nat)
    requires k < |listing| && forall q :: q in listing ==> q in Answerable(a) && q in Answerable(b)
    ensures var q, line := listing[k], OutcomeVector(a, b, listing)[k];
      && q in a && q in b && !a[q].adversarial && line == Line(q, a[q].correct, b[q].correct)
      && Selects(Accuracy, a[q]) && Scored(Accuracy, a[q]) == line.recall && Scored(Accuracy, b[q]) == line.mem0
  {
    assert listing[k] in listing;
  }

  lemma {:induction false} RecountIsPart(a: Arm, b: Arm, listing: seq<string>, n: nat)
    requires n <= |listing| && forall q :: q in listing ==> q in Answerable(a) && q in Answerable(b)
    requires forall i, j :: 0 <= i < j < |listing| ==> listing[i] != listing[j]
    ensures Recount(OutcomeVector(a, b, listing), n) == Cells(Part(a, Firsts(listing, n)), b, Accuracy)
  {
    hide Cells, Part, Firsts, OutcomeVector, Answerable, Selects, Scored;
    if n == 0 {
      NoneFirst(a, listing);
      NoCells(Part(a, Firsts(listing, 0)), b, Accuracy);
    } else {
      RecountIsPart(a, b, listing, n - 1);
      FirstsGrow(listing, n - 1);
      LineAt(a, b, listing, n - 1);
      CountOneMore(a, b, Accuracy, Firsts(listing, n - 1), listing[n - 1]);
    }
  }

  /** Only answerable questions are in the cells of the accuracy table. */
  lemma SameCell(a: Arm, part: Arm, b: Arm, good: bool, other: bool)
    requires forall q :: q in part ==> q in a && part[q] == a[q]
    requires forall q :: q in a && !a[q].adversarial ==> q in part
    ensures Cell(part, b, Accuracy, good, other) == Cell(a, b, Accuracy, good, other)
  {
  }

  /** The published vector determines the table: whoever recounts it gets the reported cells. */
  lemma VectorDeterminesCells(a: Arm, b: Arm, listing: seq<string>)
    requires a.Keys == b.Keys && SameLabels(a, b)
    requires forall q :: q in listing <==> q in Answerable(a) && q in Answerable(b)
    requires forall i, j :: 0 <= i < j < |listing| ==> listing[i] != listing[j]
    ensures Recount(OutcomeVector(a, b, listing), |listing|) == Cells(a, b, Accuracy)
    ensures AccuracyCells(a, b, Recount(OutcomeVector(a, b, listing), |listing|))
  {
    hide Cells, AccuracyCells;
    AccuracySets(a, b);
    RecountIsPart(a, b, listing, |listing|);
    hide Recount, OutcomeVector;
    var part := Part(a, Firsts(listing, |listing|));
    assert forall q :: q in a && !a[q].adversarial ==> q in part by {
      forall q | q in a && !a[q].adversarial ensures q in part {
        assert q in Answerable(a) && q in Answerable(b);
        assert q in listing;
      }
    }
    hide Answerable, Firsts;
    SameCells(a, part, b);
  }

  lemma SameCells(a: Arm, part: Arm, b: Arm)
    requires forall q :: q in part ==> q in a && part[q] == a[q]
    requires forall q :: q in a && !a[q].adversarial ==> q in part
    ensures Cells(part, b, Accuracy) == Cells(a, b, Accuracy)
  {
    hide Cell;
    forall good, other ensures Cell(part, b, Accuracy, good, other) == Cell(a, b, Accuracy, good, other) {
      SameCell(a, part, b, good, other);
    }
  }
}
