/** The tabular data model: a frame is a set of column names and a sequence of rows,
    each row mapping every column name to a cell that may be missing. */
module Tables {
  import opened Wrappers

  /** A non-missing cell value as read from the loan data: a number or a text label. */
  datatype Value = Num(x: real) | Text(s: string)

  /** A column of the loan data. The columns the pipeline reads or writes have a
      constructor each; any other header of the input file is kept by its text. */
  datatype Column =
    // raw columns
    | Lender | Approved | Bounty | FicoScore | FicoScoreGroup | EmploymentStatus | Reason
    | MonthlyHousingPayment | MonthlyGrossIncome | LoanAmount | EverBankruptOrForeclose
    // columns added by feature derivation
    | DebtToIncome | HighFico | FicoScoreGroupEncoded | EmploymentType | LoanPurposeGroup
    | FinancialHardship | IncomeToLoanRatio | RevenuePotential
    // columns added by segmentation
    | DebtToIncomeSegment | IncomeToLoanSegment
    | Other(header: string)

  /** The header text of a column in the data files. */
  function Header(c: Column): string
  {
    match c
    case Lender => "Lender"
    case Approved => "Approved"
    case Bounty => "bounty"
    case FicoScore => "FICO_score"
    case FicoScoreGroup => "Fico_Score_group"
    case EmploymentStatus => "Employment_Status"
    case Reason => "Reason"
    case MonthlyHousingPayment => "Monthly_Housing_Payment"
    case MonthlyGrossIncome => "Monthly_Gross_Income"
    case LoanAmount => "Loan_Amount"
    case EverBankruptOrForeclose => "Ever_Bankrupt_or_Foreclose"
    case DebtToIncome => "Debt_to_Income"
    case HighFico => "High_FICO"
    case FicoScoreGroupEncoded => "FICO_Score_Group_Encoded"
    case EmploymentType => "Employment_Type"
    case LoanPurposeGroup => "Loan_Purpose_Group"
    case FinancialHardship => "Financial_Hardship"
    case IncomeToLoanRatio => "Income_to_Loan_Ratio"
    case RevenuePotential => "Revenue_Potential"
    case DebtToIncomeSegment => "Debt_to_Income_Segment"
    case IncomeToLoanSegment => "Income_to_Loan_Segment"
    case Other(h) => h
  }

  /** The header texts that have a constructor of their own. */
  const KnownHeaders: set<string> := {
    "Lender", "Approved", "bounty", "FICO_score", "Fico_Score_group", "Employment_Status", "Reason",
    "Monthly_Housing_Payment", "Monthly_Gross_Income", "Loan_Amount", "Ever_Bankrupt_or_Foreclose",
    "Debt_to_Income", "High_FICO", "FICO_Score_Group_Encoded", "Employment_Type", "Loan_Purpose_Group",
    "Financial_Hardship", "Income_to_Loan_Ratio", "Revenue_Potential",
    "Debt_to_Income_Segment", "Income_to_Loan_Segment"}

  /** A column named the one way it can be: a header with a constructor of its own is
      never spelled as Other. */
  predicate Canonical(c: Column)
  {
    c.Other? ==> c.header !in KnownHeaders
  }

  /** On canonical columns the header determines the column, so looking a column up by
      its header and by its constructor agree. */
  lemma HeaderDeterminesColumn(a: Column, b: Column)
    requires Canonical(a) && Canonical(b) && Header(a) == Header(b)
    ensures a == b
  {
    assert !a.Other? ==> Header(a) in KnownHeaders;
    assert !b.Other? ==> Header(b) in KnownHeaders;
  }

  /** A cell: None stands for a missing value (NaN in the data frame). */
  type Cell = Option<Value>

  /** One loan application, column name to cell. */
  type Row = map<Column, Cell>

  /** True when column c of r holds a non-missing value. */
  predicate Present(r: Row, c: Column)
  {
    c in r && r[c].Some?
  }

  /** The cell of column c in r; an absent column reads as missing. */
  function CellAt(r: Row, c: Column): Cell
  {
    if c in r then r[c] else None
  }

  /** The numeric content of a cell; None when it is missing or text. */
  function AsNumber(cell: Cell): Option<real>
  {
    if cell.Some? && cell.value.Num? then Some(cell.value.x) else None
  }

  /** The numeric content of column c in r; None when the cell is missing, absent or text. */
  function Number(r: Row, c: Column): Option<real>
  {
    AsNumber(CellAt(r, c))
  }

  /** Turns an optional number into a cell. */
  function NumCell(n: Option<real>): Cell
  {
    match n
    case Some(x) => Some(Num(x))
    case None => None
  }

  /** The first name of `required`, in order, that is not a column of the frame:
      the column whose lookup raises the key error that aborts the script. */
  function FirstMissing(required: seq<Column>, columns: set<Column>): (m: Option<Column>)
    ensures m.None? <==> forall i :: 0 <= i < |required| ==> required[i] in columns
    ensures m.Some? ==> exists i :: 0 <= i < |required| && required[i] == m.value && m.value !in columns
                                    && forall j :: 0 <= j < i ==> required[j] in columns
  {
    if |required| == 0 then None
    else if required[0] !in columns then Some(required[0])
    else
      var rest := FirstMissing(required[1..], columns);
      assert forall i :: 1 <= i < |required| ==> required[i] == required[1..][i - 1];
      rest
  }

  /** The first missing column of a concatenation is the first missing column of its
      first part, or failing that of its second part. */
  lemma {:induction false} FirstMissingAppend(a: seq<Column>, b: seq<Column>, columns: set<Column>)
    ensures FirstMissing(a + b, columns) ==
              if FirstMissing(a, columns).Some? then FirstMissing(a, columns) else FirstMissing(b, columns)
  {
    if |a| > 0 {
      FirstMissingAppend(a[1..], b, columns);
      assert (a + b)[1..] == a[1..] + b;
    } else {
      assert a + b == b;
    }
  }

  /** Adding columns that are not required does not change which required column is missing. */
  lemma {:induction false} FirstMissingIgnores(required: seq<Column>, columns: set<Column>, extra: set<Column>)
    requires forall i :: 0 <= i < |required| ==> required[i] !in extra
    ensures FirstMissing(required, columns + extra) == FirstMissing(required, columns)
  {
    if |required| > 0 {
      FirstMissingIgnores(required[1..], columns, extra);
    }
  }
}
