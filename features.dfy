/** Feature derivation: the columns the preparation script adds to every cleaned
    loan record, each a function of that record's raw columns. */
module Features {
  import opened Wrappers
  import opened Tables

  /** One assignment statement of the derivation: the column it writes and the raw
      columns it looks up, in lookup order. */
  datatype Step = Step(target: Column, lookups: seq<Column>)

  /** The assignment statements in the order the preparation script runs them. */
  const Steps: seq<Step> := [
    Step(DebtToIncome, [MonthlyHousingPayment, MonthlyGrossIncome]),
    Step(HighFico, [FicoScore]),
    Step(FicoScoreGroupEncoded, [FicoScoreGroup]),
    Step(EmploymentType, [EmploymentStatus]),
    Step(LoanPurposeGroup, [Reason]),
    Step(FinancialHardship, [EverBankruptOrForeclose]),
    Step(IncomeToLoanRatio, [MonthlyGrossIncome, LoanAmount]),
    Step(RevenuePotential, [Bounty, Approved])]

  /** The raw columns the statements look up, in the order they do. */
  const RequiredColumns: seq<Column> :=
    [MonthlyHousingPayment, MonthlyGrossIncome, FicoScore, FicoScoreGroup, EmploymentStatus,
     Reason, EverBankruptOrForeclose, MonthlyGrossIncome, LoanAmount, Bounty, Approved]

  /** The columns derivation adds. */
  const DerivedColumns: set<Column> :=
    {DebtToIncome, HighFico, FicoScoreGroupEncoded, EmploymentType,
     LoanPurposeGroup, FinancialHardship, IncomeToLoanRatio, RevenuePotential}

  /** The fixed ordinal scale of FICO score groups, lowest first. */
  const FicoOrder: seq<string> := ["Poor", "Fair", "Good", "Very Good", "Exceptional"]

  /** The fixed table from loan reason to loan purpose group. */
  const LoanReasonMapping: map<string, string> := map[
    "cover_an_unexpected_cost" := "Emergency",
    "credit_card_refinancing" := "Refinancing",
    "home_improvement" := "Improvement",
    "major_purchase" := "Purchase",
    "medical_expense" := "Emergency",
    "small_business" := "Business",
    "other" := "Other"]

  /** A guarded ratio: defined only when both operands are present and the denominator
      is non-zero (a zero denominator is "undefined", not infinity). */
  function Ratio(num: Option<real>, den: Option<real>): (q: Option<real>)
    ensures q.Some? <==> num.Some? && den.Some? && den.value != 0.0
    ensures q.Some? ==> q.value * den.value == num.value
  {
    if num.Some? && den.Some? && den.value != 0.0 then Some(num.value / den.value) else None
  }

  /** The high-FICO flag: 1 for a score strictly above 700, 0 otherwise (also for a
      missing score, whose comparison is false). */
  function HighFicoFlag(score: Option<real>): (flag: real)
    ensures flag == 0.0 || flag == 1.0
    ensures flag == 1.0 <==> score.Some? && score.value > 700.0
  {
    if score.Some? && score.value > 700.0 then 1.0 else 0.0
  }

  /** Position of x in s, or -1 when x does not occur. */
  function IndexOf(s: seq<string>, x: string): (i: int)
    ensures -1 <= i < |s|
    ensures i >= 0 ==> s[i] == x && forall j :: 0 <= j < i ==> s[j] != x
    ensures i == -1 <==> x !in s
  {
    if |s| == 0 then -1
    else if s[0] == x then 0
    else
      var i := IndexOf(s[1..], x);
      if i == -1 then -1 else i + 1
  }

  /** The categorical code of a FICO group label on the fixed scale: its position, or
      the sentinel -1 for a missing cell, a number or any label not on the scale. */
  function FicoCode(group: Cell): (code: int)
    ensures -1 <= code < |FicoOrder|
    ensures code >= 0 ==> group == Some(Text(FicoOrder[code]))
    ensures code == -1 <==> forall i :: 0 <= i < |FicoOrder| ==> group != Some(Text(FicoOrder[i]))
  {
    match group
    case Some(Text(name)) => IndexOf(FicoOrder, name)
    case _ => -1
  }

  /** The codes follow the scale: Poor < Fair < Good < Very Good < Exceptional. */
  lemma FicoCodeFollowsScale(i: nat, j: nat)
    requires i < j < |FicoOrder|
    ensures FicoCode(Some(Text(FicoOrder[i]))) == i
    ensures FicoCode(Some(Text(FicoOrder[i]))) < FicoCode(Some(Text(FicoOrder[j])))
  {
    assert forall a, b :: 0 <= a < b < |FicoOrder| ==> FicoOrder[a] != FicoOrder[b];
    assert FicoCode(Some(Text(FicoOrder[j]))) == j;
  }

  /** Employment type: "Unemployed" exactly for the status "Unemployed", else "Employed". */
  function EmploymentTypeOf(status: Cell): (t: string)
    ensures t == "Unemployed" || t == "Employed"
    ensures t == "Unemployed" <==> status == Some(Text("Unemployed"))
  {
    if status == Some(Text("Unemployed")) then "Unemployed" else "Employed"
  }

  /** Loan purpose group by the fixed table; a reason outside the table, or a missing or
      non-text reason, gives a missing group. */
  function LoanPurposeGroupOf(reason: Cell): (g: Cell)
    ensures g.Some? <==> exists k :: k in LoanReasonMapping && reason == Some(Text(k))
    ensures forall k :: k in LoanReasonMapping && reason == Some(Text(k)) ==> g == Some(Text(LoanReasonMapping[k]))
  {
    match reason
    case Some(Text(k)) => if k in LoanReasonMapping then Some(Text(LoanReasonMapping[k])) else None
    case _ => None
  }

  /** Exactly the two reasons cover_an_unexpected_cost and medical_expense are grouped as
      Emergency; every other reason in the table has a group of its own. */
  lemma EmergencyReasons(k: string)
    requires k in LoanReasonMapping
    ensures LoanPurposeGroupOf(Some(Text(k))) == Some(Text("Emergency"))
            <==> k == "cover_an_unexpected_cost" || k == "medical_expense"
    ensures forall k' :: k' in LoanReasonMapping && k' != k && LoanReasonMapping[k'] == LoanReasonMapping[k]
              ==> {k, k'} == {"cover_an_unexpected_cost", "medical_expense"}
  {
  }

  /** Financial hardship flag: 1 exactly when the bankruptcy/foreclosure cell equals 1. */
  function FinancialHardshipFlag(flag: Cell): (h: real)
    ensures h == 0.0 || h == 1.0
    ensures h == 1.0 <==> flag == Some(Num(1.0))
  {
    if flag == Some(Num(1.0)) then 1.0 else 0.0
  }

  /** Revenue potential, bounty times the approval flag: zero for a rejected application,
      the bounty for an approved one, missing when either operand is. */
  function RevenuePotentialOf(bounty: Option<real>, approved: Option<real>): (rev: Option<real>)
    ensures rev.Some? <==> bounty.Some? && approved.Some?
    ensures bounty.Some? && approved == Some(0.0) ==> rev == Some(0.0)
    ensures approved == Some(1.0) ==> rev == bounty
  {
    if bounty.Some? && approved.Some? then Some(bounty.value * approved.value) else None
  }

  /** The raw cells of one record that the derivations read. */
  datatype RawCells = RawCells(
    housingPayment: Cell, grossIncome: Cell, ficoScore: Cell, ficoGroup: Cell, employmentStatus: Cell,
    reason: Cell, bankruptOrForeclose: Cell, loanAmount: Cell, bounty: Cell, approved: Cell)

  function RawOf(r: Row): RawCells
  {
    RawCells(CellAt(r, MonthlyHousingPayment), CellAt(r, MonthlyGrossIncome), CellAt(r, FicoScore),
             CellAt(r, FicoScoreGroup), CellAt(r, EmploymentStatus), CellAt(r, Reason),
             CellAt(r, EverBankruptOrForeclose), CellAt(r, LoanAmount), CellAt(r, Bounty), CellAt(r, Approved))
  }

  /** The eight derived values of one record, before they are stored as cells. */
  datatype DerivedFields = DerivedFields(
    debtToIncome: Option<real>, highFico: real, ficoCode: int, employmentType: string,
    loanPurposeGroup: Cell, financialHardship: real, incomeToLoan: Option<real>, revenuePotential: Option<real>)

  /** The derivation formulas, each a function of the raw cells only. */
  function Derive(raw: RawCells): DerivedFields
  {
    DerivedFields(
      Ratio(AsNumber(raw.housingPayment), AsNumber(raw.grossIncome)),
      HighFicoFlag(AsNumber(raw.ficoScore)),
      FicoCode(raw.ficoGroup),
      EmploymentTypeOf(raw.employmentStatus),
      LoanPurposeGroupOf(raw.reason),
      FinancialHardshipFlag(raw.bankruptOrForeclose),
      Ratio(AsNumber(raw.grossIncome), AsNumber(raw.loanAmount)),
      RevenuePotentialOf(AsNumber(raw.bounty), AsNumber(raw.approved)))
  }

  /** The derived values as cells, keyed by the column each is assigned to. */
  function DerivedCells(f: DerivedFields): (cells: map<Column, Cell>)
    ensures cells.Keys == DerivedColumns
  {
    map[DebtToIncome := NumCell(f.debtToIncome),
        HighFico := Some(Num(f.highFico)),
        FicoScoreGroupEncoded := Some(Num(f.ficoCode as real)),
        EmploymentType := Some(Text(f.employmentType)),
        LoanPurposeGroup := f.loanPurposeGroup,
        FinancialHardship := Some(Num(f.financialHardship)),
        IncomeToLoanRatio := NumCell(f.incomeToLoan),
        RevenuePotential := NumCell(f.revenuePotential)]
  }

  /** One record with its eight derived columns added (an existing column of the same
      name is overwritten); every other column is kept. */
  function DeriveRow(r: Row): (d: Row)
    ensures d.Keys == r.Keys + DerivedColumns
    ensures forall c :: c in r && c !in DerivedColumns ==> d[c] == r[c]
  {
    r + DerivedCells(Derive(RawOf(r)))
  }

  /** Derivation over the table, row for row: no record is dropped or reordered, each
      gains the derived columns, and its other columns keep their cells. */
  function DeriveTable(rows: seq<Row>): (out: seq<Row>)
    ensures |out| == |rows|
    ensures forall i :: 0 <= i < |rows| ==> out[i].Keys == rows[i].Keys + DerivedColumns
    ensures forall i, c :: 0 <= i < |rows| && c in rows[i] && c !in DerivedColumns ==> out[i][c] == rows[i][c]
  {
    seq(|rows|, i requires 0 <= i < |rows| => DeriveRow(rows[i]))
  }

  /** The lookups of a run of statements, concatenated in order. */
  function ReadsOf(steps: seq<Step>): seq<Column>
  {
    if |steps| == 0 then [] else steps[0].lookups + ReadsOf(steps[1..])
  }

  /** The index of the first statement one of whose raw columns is absent, or the number
      of statements when every lookup succeeds. */
  function FailingStep(steps: seq<Step>, columns: set<Column>): (n: nat)
    ensures n <= |steps|
    ensures forall j :: 0 <= j < n ==> FirstMissing(steps[j].lookups, columns).None?
    ensures n < |steps| ==> FirstMissing(steps[n].lookups, columns).Some?
  {
    if |steps| == 0 then 0
    else if FirstMissing(steps[0].lookups, columns).Some? then 0
    else 1 + FailingStep(steps[1..], columns)
  }

  /** The key error of a run of statements is raised by its first failing statement. */
  lemma {:induction false} FirstMissingOfSteps(steps: seq<Step>, columns: set<Column>)
    ensures FirstMissing(ReadsOf(steps), columns) ==
              if FailingStep(steps, columns) < |steps| then FirstMissing(steps[FailingStep(steps, columns)].lookups, columns)
              else None
  {
    if |steps| > 0 {
      FirstMissingAppend(steps[0].lookups, ReadsOf(steps[1..]), columns);
      FirstMissingOfSteps(steps[1..], columns);
    }
  }

  /** The lookup order of the statements is RequiredColumns. */
  lemma RequiredColumnsAreReads()
    ensures ReadsOf(Steps) == RequiredColumns
  {
    assert ReadsOf(Steps[7..]) == [Bounty, Approved];
    assert ReadsOf(Steps[6..]) == [MonthlyGrossIncome, LoanAmount, Bounty, Approved];
    assert ReadsOf(Steps[5..]) == [EverBankruptOrForeclose, MonthlyGrossIncome, LoanAmount, Bounty, Approved];
    assert ReadsOf(Steps[4..]) == [Reason] + ReadsOf(Steps[5..]);
    assert ReadsOf(Steps[3..]) == [EmploymentStatus] + ReadsOf(Steps[4..]);
    assert ReadsOf(Steps[2..]) == [FicoScoreGroup] + ReadsOf(Steps[3..]);
    assert ReadsOf(Steps[1..]) == [FicoScore] + ReadsOf(Steps[2..]);
  }

  /** Statement i, reached because every statement before it found its raw columns, looks
      them up in a frame that also holds the columns those statements wrote; it fails exactly
      when it is the failing statement, and then raises the key error of the whole run. */
  lemma StatementLookup(columns: set<Column>, i: nat)
    requires i < |Steps| && i <= FailingStep(Steps, columns)
    ensures FirstMissing(Steps[i].lookups, columns + Added(i)) == FirstMissing(Steps[i].lookups, columns)
    ensures FirstMissing(Steps[i].lookups, columns).Some? <==> i == FailingStep(Steps, columns)
    ensures i == FailingStep(Steps, columns) ==>
              FirstMissing(RequiredColumns, columns) == FirstMissing(Steps[i].lookups, columns)
  {
    StepsReadRawWriteDerived();
    FirstMissingIgnores(Steps[i].lookups, columns, Added(i));
    FirstMissingOfSteps(Steps, columns);
    RequiredColumnsAreReads();
  }

  /** When no statement fails, the run raises no key error. */
  lemma NoFailingStatement(columns: set<Column>)
    requires FailingStep(Steps, columns) == |Steps|
    ensures FirstMissing(RequiredColumns, columns) == None
  {
    FirstMissingOfSteps(Steps, columns);
    RequiredColumnsAreReads();
  }

  /** The derived columns written by the first n statements. */
  function Added(n: nat): (cs: set<Column>)
    requires n <= |Steps|
    ensures forall j :: 0 <= j < n ==> Steps[j].target in cs
    ensures cs <= DerivedColumns
  {
    if n == 0 then {}
    else
      StepTarget(n - 1);
      Added(n - 1) + {Steps[n - 1].target}
  }

  /** Together the statements write every derived column. */
  lemma AddedAll()
    ensures Added(|Steps|) == DerivedColumns
  {
    forall c | c in DerivedColumns ensures c in Added(|Steps|) {
      var j := StatementOf(c);
    }
  }

  /** The statement that writes derived column c. */
  function StatementOf(c: Column): (j: nat)
    requires c in DerivedColumns
    ensures j < |Steps| && Steps[j].target == c
  {
    match c
    case DebtToIncome => 0
    case HighFico => 1
    case FicoScoreGroupEncoded => 2
    case EmploymentType => 3
    case LoanPurposeGroup => 4
    case FinancialHardship => 5
    case IncomeToLoanRatio => 6
    case RevenuePotential => 7
  }

  /** Every statement reads only raw columns and writes a derived one, and no two
      statements write the same column. */
  lemma StepsReadRawWriteDerived()
    ensures forall j :: 0 <= j < |Steps| ==> Steps[j].target in DerivedColumns
    ensures forall j, k :: 0 <= j < |Steps| && 0 <= k < |Steps[j].lookups| ==> Steps[j].lookups[k] !in DerivedColumns
    ensures forall j, k :: 0 <= j < k < |Steps| ==> Steps[j].target != Steps[k].target
  {
  }

  /** Statement n writes a derived column that no earlier statement writes. */
  lemma StepTarget(n: nat)
    requires n < |Steps|
    ensures Steps[n].target in DerivedColumns
    ensures forall j :: 0 <= j < n ==> Steps[j].target != Steps[n].target
  {
    StepsReadRawWriteDerived();
  }

  /** Record r after the first n statements have each stored their column's entry of
      `cells`: the record gains exactly those columns, each with its entry, and keeps its
      other cells. */
  function Assign(r: Row, cells: map<Column, Cell>, n: nat): (d: Row)
    requires n <= |Steps| && cells.Keys == DerivedColumns
    ensures d.Keys == r.Keys + Added(n)
    ensures forall c :: c in r && c !in Added(n) ==> d[c] == r[c]
    ensures forall j :: 0 <= j < n ==> d[Steps[j].target] == cells[Steps[j].target]
  {
    if n == 0 then r
    else
      StepTarget(n - 1);
      var t := Steps[n - 1].target;
      assert Added(n) == Added(n - 1) + {t};
      Assign(r, cells, n - 1)[t := cells[t]]
  }

  /** A record that differs from r only in derived columns has r's raw cells. */
  lemma RawKept(r: Row, d: Row, extra: set<Column>)
    requires extra <= DerivedColumns && d.Keys == r.Keys + extra
    requires forall c :: c in r && c !in extra ==> d[c] == r[c]
    ensures RawOf(d) == RawOf(r)
  {
  }

  /** The first n statements on one record, each computing its column from the record's
      raw cells, which no statement changes. */
  function DeriveSteps(r: Row, n: nat): (d: Row)
    requires n <= |Steps|
    ensures d.Keys == r.Keys + Added(n)
    ensures forall c :: c in r && c !in Added(n) ==> d[c] == r[c]
    ensures RawOf(d) == RawOf(r)
  {
    var d := Assign(r, DerivedCells(Derive(RawOf(r))), n);
    RawKept(r, d, Added(n));
    d
  }

  /** One statement on one record: the derived column t is (re)assigned from the
      record's raw columns. */
  function DeriveStep(r: Row, t: Column): (d: Row)
    requires t in DerivedColumns
    ensures d.Keys == r.Keys + {t}
    ensures forall c :: c in r && c != t ==> d[c] == r[c]
  {
    r[t := DerivedCells(Derive(RawOf(r)))[t]]
  }

  /** Running statement n on a record after the first n is running the first n + 1. */
  lemma DeriveStepsNext(r: Row, n: nat)
    requires n < |Steps|
    ensures Steps[n].target in DerivedColumns
    ensures DeriveStep(DeriveSteps(r, n), Steps[n].target) == DeriveSteps(r, n + 1)
  {
    StepTarget(n);
  }

  /** All eight statements together store every entry of `cells`. */
  lemma AssignAll(r: Row, cells: map<Column, Cell>)
    requires cells.Keys == DerivedColumns
    ensures Assign(r, cells, |Steps|) == r + cells
  {
    var d := Assign(r, cells, |Steps|);
    AddedAll();
    forall c | c in d ensures d[c] == (r + cells)[c] {
      if c in DerivedColumns {
        var j := StatementOf(c);
      }
    }
  }

  /** All eight statements on a record are the whole derivation. */
  lemma DeriveStepsComplete(r: Row)
    ensures DeriveSteps(r, |Steps|) == DeriveRow(r)
  {
    AssignAll(r, DerivedCells(Derive(RawOf(r))));
  }

  /** One statement on the whole table. */
  function DeriveColumn(rows: seq<Row>, t: Column): (out: seq<Row>)
    requires t in DerivedColumns
    ensures |out| == |rows|
    ensures forall i :: 0 <= i < |rows| ==> out[i].Keys == rows[i].Keys + {t}
  {
    seq(|rows|, i requires 0 <= i < |rows| => DeriveStep(rows[i], t))
  }

  /** The first n statements on the whole table, record for record. */
  function DeriveTableSteps(rows: seq<Row>, n: nat): (out: seq<Row>)
    requires n <= |Steps|
    ensures |out| == |rows|
    ensures forall i :: 0 <= i < |rows| ==> out[i].Keys == rows[i].Keys + Added(n)
  {
    seq(|rows|, i requires 0 <= i < |rows| => DeriveSteps(rows[i], n))
  }

  /** Running statement n after the first n is running the first n + 1. */
  lemma DeriveTableStepsNext(rows: seq<Row>, n: nat)
    requires n < |Steps|
    ensures Steps[n].target in DerivedColumns
    ensures DeriveColumn(DeriveTableSteps(rows, n), Steps[n].target) == DeriveTableSteps(rows, n + 1)
  {
    StepTarget(n);
    forall i | 0 <= i < |rows|
      ensures DeriveColumn(DeriveTableSteps(rows, n), Steps[n].target)[i] == DeriveTableSteps(rows, n + 1)[i]
    {
      DeriveStepsNext(rows[i], n);
    }
  }

  /** Running every statement over the table is the whole derivation. */
  lemma DeriveTableStepsComplete(rows: seq<Row>)
    ensures DeriveTableSteps(rows, |Steps|) == DeriveTable(rows)
  {
    forall i | 0 <= i < |rows| ensures DeriveTableSteps(rows, |Steps|)[i] == DeriveTable(rows)[i] {
      DeriveStepsComplete(rows[i]);
    }
  }

  /** Merging derived values into a record stores each value in its own column. */
  lemma MergedCells(r: Row, f: DerivedFields)
    ensures CellAt(r + DerivedCells(f), DebtToIncome) == NumCell(f.debtToIncome)
    ensures CellAt(r + DerivedCells(f), HighFico) == Some(Num(f.highFico))
    ensures CellAt(r + DerivedCells(f), FicoScoreGroupEncoded) == Some(Num(f.ficoCode as real))
    ensures CellAt(r + DerivedCells(f), EmploymentType) == Some(Text(f.employmentType))
    ensures CellAt(r + DerivedCells(f), LoanPurposeGroup) == f.loanPurposeGroup
    ensures CellAt(r + DerivedCells(f), FinancialHardship) == Some(Num(f.financialHardship))
    ensures CellAt(r + DerivedCells(f), IncomeToLoanRatio) == NumCell(f.incomeToLoan)
    ensures CellAt(r + DerivedCells(f), RevenuePotential) == NumCell(f.revenuePotential)
  {
  }

  /** Merging derived values into a record leaves its raw cells as they were. */
  lemma MergeKeepsRaw(r: Row, f: DerivedFields)
    ensures RawOf(r + DerivedCells(f)) == RawOf(r)
  {
    RawKept(r, r + DerivedCells(f), DerivedColumns);
  }

  /** The two ratio columns of a derived record, in terms of its raw columns. */
  lemma DerivedRatios(r: Row)
    ensures Number(DeriveRow(r), DebtToIncome) == Ratio(Number(r, MonthlyHousingPayment), Number(r, MonthlyGrossIncome))
    ensures Number(DeriveRow(r), IncomeToLoanRatio) == Ratio(Number(r, MonthlyGrossIncome), Number(r, LoanAmount))
  {
    MergedCells(r, Derive(RawOf(r)));
  }

  /** The three flag and code columns of a derived record, in terms of its raw columns. */
  lemma DerivedFlags(r: Row)
    ensures Number(DeriveRow(r), HighFico) == Some(HighFicoFlag(Number(r, FicoScore)))
    ensures Number(DeriveRow(r), FicoScoreGroupEncoded) == Some(FicoCode(CellAt(r, FicoScoreGroup)) as real)
    ensures Number(DeriveRow(r), FinancialHardship) == Some(FinancialHardshipFlag(CellAt(r, EverBankruptOrForeclose)))
  {
    MergedCells(r, Derive(RawOf(r)));
  }

  /** The two label columns and the revenue column of a derived record, in terms of its raw columns. */
  lemma DerivedLabelsAndRevenue(r: Row)
    ensures CellAt(DeriveRow(r), EmploymentType) == Some(Text(EmploymentTypeOf(CellAt(r, EmploymentStatus))))
    ensures CellAt(DeriveRow(r), LoanPurposeGroup) == LoanPurposeGroupOf(CellAt(r, Reason))
    ensures Number(DeriveRow(r), RevenuePotential) == RevenuePotentialOf(Number(r, Bounty), Number(r, Approved))
  {
    MergedCells(r, Derive(RawOf(r)));
  }

  /** Derivation leaves the raw cells of a record as they were. */
  lemma DeriveKeepsRaw(r: Row)
    ensures RawOf(DeriveRow(r)) == RawOf(r)
  {
    MergeKeepsRaw(r, Derive(RawOf(r)));
  }

  /** Re-deriving from an already enriched record changes nothing: the derived columns
      depend only on raw columns, which derivation leaves untouched. */
  lemma DeriveIdempotent(r: Row)
    ensures DeriveRow(DeriveRow(r)) == DeriveRow(r)
  {
    DeriveKeepsRaw(r);
  }

  /** A zero loan amount leaves the income-to-loan ratio undefined. */
  lemma ZeroLoanAmountUndefinedRatio(r: Row)
    requires Number(r, LoanAmount) == Some(0.0)
    ensures CellAt(DeriveRow(r), IncomeToLoanRatio).None?
  {
  }

  /** Boundary scenarios: a score of exactly 700 is not high, 701 is; a housing payment of
      1000 on an income of 5000 gives a debt-to-income ratio of exactly 0.2; revenue is the
      bounty when approved and zero when not. */
  lemma DerivationScenarios()
    ensures HighFicoFlag(Some(700.0)) == 0.0 && HighFicoFlag(Some(701.0)) == 1.0
    ensures Ratio(Some(1000.0), Some(5000.0)) == Some(0.2)
    ensures RevenuePotentialOf(Some(500.0), Some(1.0)) == Some(500.0)
    ensures RevenuePotentialOf(Some(500.0), Some(0.0)) == Some(0.0)
  {
  }
}
