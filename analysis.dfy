/** The aggregate views of the analysis script: grouped means of approval and revenue
    over the enriched loan records, some after a row selection, some keyed by segment. */
module Analysis {
  import opened Wrappers
  import opened Tables
  import opened Segments
  import opened Grouping
  import Features

  /** The flag value 1 that the selections compare against. */
  const One: Value := Num(1.0)

  // Grouping keys. A row whose key has a missing component belongs to no group.

  function LenderOf(r: Row): Option<Value>
  {
    CellAt(r, Lender)
  }

  function LenderAndFicoGroup(r: Row): Option<(Value, Value)>
  {
    match (CellAt(r, Lender), CellAt(r, FicoScoreGroup))
    case (Some(l), Some(g)) => Some((l, g))
    case _ => None
  }

  function DtiSegmentAndLender(r: Row): Option<(Value, Value)>
  {
    match (CellAt(r, DebtToIncomeSegment), CellAt(r, Lender))
    case (Some(s), Some(l)) => Some((s, l))
    case _ => None
  }

  function SegmentFicoAndLender(r: Row): Option<(Value, Value, Value)>
  {
    match (CellAt(r, IncomeToLoanSegment), CellAt(r, HighFico), CellAt(r, Lender))
    case (Some(s), Some(h), Some(l)) => Some((s, h, l))
    case _ => None
  }

  function SegmentAndLender(r: Row): Option<(Value, Value)>
  {
    match (CellAt(r, IncomeToLoanSegment), CellAt(r, Lender))
    case (Some(s), Some(l)) => Some((s, l))
    case _ => None
  }

  // Value columns and row selections.

  function ApprovedOf(r: Row): Option<real>
  {
    Number(r, Approved)
  }

  function RevenueOf(r: Row): Option<real>
  {
    Number(r, RevenuePotential)
  }

  function BountyOf(r: Row): Option<real>
  {
    Number(r, Bounty)
  }

  predicate IsApproved(r: Row)
  {
    CellAt(r, Approved) == Some(One)
  }

  predicate IsHighFico(r: Row)
  {
    CellAt(r, HighFico) == Some(One)
  }

  predicate HasDtiSegment(r: Row)
  {
    Present(r, DebtToIncomeSegment)
  }

  // The views.

  /** The lender of an approved row; no lender for any other row. */
  function ApprovedLender(r: Row): Option<Value>
  {
    if IsApproved(r) then LenderOf(r) else None
  }

  /** The lender of a high-FICO row; no lender for any other row. */
  function HighFicoLender(r: Row): Option<Value>
  {
    if IsHighFico(r) then LenderOf(r) else None
  }

  /** Approval rate per lender: a lender has a rate exactly when some row names it, and
      the rate is the mean approval flag over exactly the rows naming it. */
  function ApprovalRatesPerLender(rows: seq<Row>): (view: map<Value, Option<real>>)
    ensures forall l :: l in view <==> exists i :: 0 <= i < |rows| && CellAt(rows[i], Lender) == Some(l)
    ensures forall l :: l in view ==> view[l] == Mean(Matching(rows, LenderOf, ApprovedOf, l))
  {
    GroupMean(rows, LenderOf, ApprovedOf)
  }

  /** Approval rate per (lender, FICO score group): a pair has a rate exactly when some
      row carries both, and the rate is the mean over exactly the rows matching both. */
  function ApprovalRatesByFico(rows: seq<Row>): (view: map<(Value, Value), Option<real>>)
    ensures forall l, g :: (l, g) in view <==>
              exists i :: 0 <= i < |rows| && CellAt(rows[i], Lender) == Some(l) && CellAt(rows[i], FicoScoreGroup) == Some(g)
    ensures forall k :: k in view ==> view[k] == Mean(Matching(rows, LenderAndFicoGroup, ApprovedOf, k))
  {
    FicoKeys(rows);
    GroupMean(rows, LenderAndFicoGroup, ApprovedOf)
  }

  /** A row has a (lender, FICO group) key exactly when it carries both cells. */
  lemma LenderAndFicoGroupOf(r: Row)
    ensures LenderAndFicoGroup(r).Some? <==> CellAt(r, Lender).Some? && CellAt(r, FicoScoreGroup).Some?
    ensures LenderAndFicoGroup(r).Some? ==>
              LenderAndFicoGroup(r).value == (CellAt(r, Lender).value, CellAt(r, FicoScoreGroup).value)
  {
  }

  /** The (lender, FICO group) pairs of the view are exactly the pairs some row carries. */
  lemma FicoKeys(rows: seq<Row>)
    ensures forall l, g :: (l, g) in GroupMean(rows, LenderAndFicoGroup, ApprovedOf) <==>
              exists i :: 0 <= i < |rows| && CellAt(rows[i], Lender) == Some(l) && CellAt(rows[i], FicoScoreGroup) == Some(g)
  {
    var view := GroupMean(rows, LenderAndFicoGroup, ApprovedOf);
    forall l, g | (l, g) in view
      ensures exists i :: 0 <= i < |rows| && CellAt(rows[i], Lender) == Some(l) && CellAt(rows[i], FicoScoreGroup) == Some(g)
    {
      var i :| 0 <= i < |rows| && LenderAndFicoGroup(rows[i]) == Some((l, g));
      LenderAndFicoGroupOf(rows[i]);
    }
    forall l, g | exists i :: 0 <= i < |rows| && CellAt(rows[i], Lender) == Some(l) && CellAt(rows[i], FicoScoreGroup) == Some(g)
      ensures (l, g) in view
    {
      var i :| 0 <= i < |rows| && CellAt(rows[i], Lender) == Some(l) && CellAt(rows[i], FicoScoreGroup) == Some(g);
      LenderAndFicoGroupOf(rows[i]);
    }
  }

  /** Mean revenue potential per lender over the approved applications only: a lender has
      an entry exactly when it has an approved row. */
  function RevenuePerApprovedApp(rows: seq<Row>): (view: map<Value, Option<real>>)
    ensures forall l :: l in view <==> exists i :: 0 <= i < |rows| && IsApproved(rows[i]) && CellAt(rows[i], Lender) == Some(l)
    ensures view == GroupMean(rows, ApprovedLender, RevenueOf)
  {
    GroupMeanWhereKeys(rows, IsApproved, LenderOf, RevenueOf);
    GroupMeanWhereIsMaskedKey(rows, IsApproved, LenderOf, RevenueOf, ApprovedLender);
    GroupMean(Where(rows, IsApproved), LenderOf, RevenueOf)
  }

  /** Mean revenue potential per lender over the high-FICO applications only: a lender
      has an entry exactly when it has a high-FICO row. */
  function HighValueSegments(rows: seq<Row>): (view: map<Value, Option<real>>)
    ensures forall l :: l in view <==> exists i :: 0 <= i < |rows| && IsHighFico(rows[i]) && CellAt(rows[i], Lender) == Some(l)
    ensures view == GroupMean(rows, HighFicoLender, RevenueOf)
  {
    GroupMeanWhereKeys(rows, IsHighFico, LenderOf, RevenueOf);
    GroupMeanWhereIsMaskedKey(rows, IsHighFico, LenderOf, RevenueOf, HighFicoLender);
    GroupMean(Where(rows, IsHighFico), LenderOf, RevenueOf)
  }

  /** Approval rate per (debt-to-income segment, lender): a pair has a rate exactly when
      some row carries both, and rows without a segment take part in no cell. */
  function ApprovalRatesByDti(rows: seq<Row>): (view: map<(Value, Value), Option<real>>)
    ensures forall s, l :: (s, l) in view <==>
              exists i :: 0 <= i < |rows| && CellAt(rows[i], DebtToIncomeSegment) == Some(s) && CellAt(rows[i], Lender) == Some(l)
    ensures forall k :: k in view ==> view[k] == Mean(Matching(rows, DtiSegmentAndLender, ApprovedOf, k))
  {
    DtiKeys(rows);
    GroupMean(rows, DtiSegmentAndLender, ApprovedOf)
  }

  /** A row has a (segment, lender) key exactly when it carries both cells. */
  lemma DtiSegmentAndLenderOf(r: Row)
    ensures DtiSegmentAndLender(r).Some? <==> CellAt(r, DebtToIncomeSegment).Some? && CellAt(r, Lender).Some?
    ensures DtiSegmentAndLender(r).Some? ==>
              DtiSegmentAndLender(r).value == (CellAt(r, DebtToIncomeSegment).value, CellAt(r, Lender).value)
  {
  }

  /** The (segment, lender) pairs of the view are exactly the pairs some row carries. */
  lemma DtiKeys(rows: seq<Row>)
    ensures forall s, l :: (s, l) in GroupMean(rows, DtiSegmentAndLender, ApprovedOf) <==>
              exists i :: 0 <= i < |rows| && CellAt(rows[i], DebtToIncomeSegment) == Some(s) && CellAt(rows[i], Lender) == Some(l)
  {
    var view := GroupMean(rows, DtiSegmentAndLender, ApprovedOf);
    forall s, l | (s, l) in view
      ensures exists i :: 0 <= i < |rows| && CellAt(rows[i], DebtToIncomeSegment) == Some(s) && CellAt(rows[i], Lender) == Some(l)
    {
      var i :| 0 <= i < |rows| && DtiSegmentAndLender(rows[i]) == Some((s, l));
      DtiSegmentAndLenderOf(rows[i]);
    }
    forall s, l | exists i :: 0 <= i < |rows| && CellAt(rows[i], DebtToIncomeSegment) == Some(s) && CellAt(rows[i], Lender) == Some(l)
      ensures (s, l) in view
    {
      var i :| 0 <= i < |rows| && CellAt(rows[i], DebtToIncomeSegment) == Some(s) && CellAt(rows[i], Lender) == Some(l);
      DtiSegmentAndLenderOf(rows[i]);
    }
  }

  /** Mean revenue potential per (income-to-loan segment, high-FICO flag, lender): a
      triple has an entry exactly when some row carries all three. */
  function RevenueByIncomeLoanFico(rows: seq<Row>): (view: map<(Value, Value, Value), Option<real>>)
    ensures forall s, h, l :: (s, h, l) in view <==>
              exists i :: 0 <= i < |rows| && CellAt(rows[i], IncomeToLoanSegment) == Some(s)
                          && CellAt(rows[i], HighFico) == Some(h) && CellAt(rows[i], Lender) == Some(l)
    ensures forall k :: k in view ==> view[k] == Mean(Matching(rows, SegmentFicoAndLender, RevenueOf, k))
  {
    SegmentFicoKeys(rows);
    GroupMean(rows, SegmentFicoAndLender, RevenueOf)
  }

  /** A row has a (segment, flag, lender) key exactly when it carries all three cells. */
  lemma SegmentFicoAndLenderOf(r: Row)
    ensures SegmentFicoAndLender(r).Some? <==>
              CellAt(r, IncomeToLoanSegment).Some? && CellAt(r, HighFico).Some? && CellAt(r, Lender).Some?
    ensures SegmentFicoAndLender(r).Some? ==>
              SegmentFicoAndLender(r).value == (CellAt(r, IncomeToLoanSegment).value, CellAt(r, HighFico).value, CellAt(r, Lender).value)
  {
  }

  /** The (segment, flag, lender) triples of the view are exactly the triples some row carries. */
  lemma SegmentFicoKeys(rows: seq<Row>)
    ensures forall s, h, l :: (s, h, l) in GroupMean(rows, SegmentFicoAndLender, RevenueOf) <==>
              exists i :: 0 <= i < |rows| && CellAt(rows[i], IncomeToLoanSegment) == Some(s)
                          && CellAt(rows[i], HighFico) == Some(h) && CellAt(rows[i], Lender) == Some(l)
  {
    var view := GroupMean(rows, SegmentFicoAndLender, RevenueOf);
    forall s, h, l | (s, h, l) in view
      ensures exists i :: 0 <= i < |rows| && CellAt(rows[i], IncomeToLoanSegment) == Some(s)
                          && CellAt(rows[i], HighFico) == Some(h) && CellAt(rows[i], Lender) == Some(l)
    {
      var i :| 0 <= i < |rows| && SegmentFicoAndLender(rows[i]) == Some((s, h, l));
      SegmentFicoAndLenderOf(rows[i]);
    }
    forall s, h, l | exists i :: 0 <= i < |rows| && CellAt(rows[i], IncomeToLoanSegment) == Some(s)
                                 && CellAt(rows[i], HighFico) == Some(h) && CellAt(rows[i], Lender) == Some(l)
      ensures (s, h, l) in view
    {
      var i :| 0 <= i < |rows| && CellAt(rows[i], IncomeToLoanSegment) == Some(s)
               && CellAt(rows[i], HighFico) == Some(h) && CellAt(rows[i], Lender) == Some(l);
      SegmentFicoAndLenderOf(rows[i]);
    }
  }

  /** The cross-section at high-FICO flag 1 of a three-level view, re-keyed by
      (segment, lender); absent when no key has flag 1. */
  function HighFicoSlice(view: map<(Value, Value, Value), Option<real>>): (slice: Option<map<(Value, Value), Option<real>>>)
    ensures slice.Some? <==> exists t :: t in view && t.1 == One
    ensures slice.Some? ==> forall j :: j in slice.value <==> (j.0, One, j.1) in view
    ensures slice.Some? ==> forall j :: j in slice.value ==> slice.value[j] == view[(j.0, One, j.1)]
  {
    CrossSectionEntries(view, One);
    if HasLevel(view, One) then Some(CrossSection(view, One)) else None
  }

  /** The views the analysis produces, by name. The last is present only when some
      segmented row has the high-FICO flag 1. */
  datatype Views = Views(
    approvalRatesPerLender: map<Value, Option<real>>,
    approvalRatesByFico: map<(Value, Value), Option<real>>,
    revenuePerApprovedApp: map<Value, Option<real>>,
    highValueSegments: map<Value, Option<real>>,
    approvalRatesByDti: map<(Value, Value), Option<real>>,
    revenueByIncomeLoanHighFico: Option<map<(Value, Value), Option<real>>>)

  /** The columns the analysis looks up, in the order it first does. */
  const AnalysisColumns: seq<Column> :=
    [Lender, Approved, FicoScoreGroup, RevenuePotential, HighFico, DebtToIncome, IncomeToLoanRatio]

  /** The rows with the debt-to-income segment column written from the ratio column. */
  function WithDtiSegment(rows: seq<Row>): (out: seq<Row>)
    ensures |out| == |rows|
    ensures forall i :: 0 <= i < |rows| ==>
              out[i].Keys == rows[i].Keys + {DebtToIncomeSegment}
              && out[i][DebtToIncomeSegment] == DtiSegmentOf(Number(rows[i], DebtToIncome))
    ensures forall i, c :: 0 <= i < |rows| && c in rows[i] && c != DebtToIncomeSegment ==> out[i][c] == rows[i][c]
  {
    DtiEdgesIncreasing();
    WithSegment(rows, DebtToIncomeSegment, DebtToIncome, DtiEdges, DtiLabels)
  }

  /** The rows with both segment columns written from their ratio columns. */
  function Segmented(rows: seq<Row>): (out: seq<Row>)
    ensures |out| == |rows|
    ensures forall i :: 0 <= i < |rows| ==>
              out[i].Keys == rows[i].Keys + {DebtToIncomeSegment, IncomeToLoanSegment}
              && out[i][DebtToIncomeSegment] == DtiSegmentOf(Number(rows[i], DebtToIncome))
              && out[i][IncomeToLoanSegment] == IncomeToLoanSegmentOf(Number(rows[i], IncomeToLoanRatio))
    ensures forall i, c :: 0 <= i < |rows| && c in rows[i] && c != DebtToIncomeSegment && c != IncomeToLoanSegment
              ==> out[i][c] == rows[i][c]
  {
    IncomeToLoanEdgesIncreasing();
    SegmentedRows(rows);
    WithSegment(WithDtiSegment(rows), IncomeToLoanSegment, IncomeToLoanRatio, IncomeToLoanEdges, IncomeToLoanLabels)
  }

  /** Writing the second segment column keeps the first and reads the ratio the first left alone. */
  lemma SegmentedRows(rows: seq<Row>)
    ensures Increasing(IncomeToLoanEdges) && |IncomeToLoanLabels| == |IncomeToLoanEdges|
    ensures var out := WithSegment(WithDtiSegment(rows), IncomeToLoanSegment, IncomeToLoanRatio, IncomeToLoanEdges, IncomeToLoanLabels);
            && (forall i :: 0 <= i < |rows| ==>
                  out[i].Keys == rows[i].Keys + {DebtToIncomeSegment, IncomeToLoanSegment}
                  && out[i][DebtToIncomeSegment] == DtiSegmentOf(Number(rows[i], DebtToIncome))
                  && out[i][IncomeToLoanSegment] == IncomeToLoanSegmentOf(Number(rows[i], IncomeToLoanRatio)))
            && (forall i, c :: 0 <= i < |rows| && c in rows[i] && c != DebtToIncomeSegment && c != IncomeToLoanSegment
                  ==> out[i][c] == rows[i][c])
  {
    IncomeToLoanEdgesIncreasing();
    var withDti := WithDtiSegment(rows);
    var out := WithSegment(withDti, IncomeToLoanSegment, IncomeToLoanRatio, IncomeToLoanEdges, IncomeToLoanLabels);
    forall i | 0 <= i < |rows|
      ensures out[i].Keys == rows[i].Keys + {DebtToIncomeSegment, IncomeToLoanSegment}
      ensures out[i][DebtToIncomeSegment] == DtiSegmentOf(Number(rows[i], DebtToIncome))
      ensures out[i][IncomeToLoanSegment] == IncomeToLoanSegmentOf(Number(rows[i], IncomeToLoanRatio))
    {
      assert Number(withDti[i], IncomeToLoanRatio) == Number(rows[i], IncomeToLoanRatio);
    }
  }

  /** A high-FICO row with a lender and a positive income-to-loan ratio: the rows that
      place a value in the high-FICO slice of the income-to-loan view. */
  predicate HighFicoPlaced(r: Row)
  {
    IsHighFico(r) && Present(r, Lender)
    && Number(r, IncomeToLoanRatio).Some? && Number(r, IncomeToLoanRatio).value > 0.0
  }

  /** One row before and after segmenting: the segmented row is high-FICO with a segment
      and a lender exactly when the row it came from is placed. */
  lemma HighFicoPlacedRow(r: Row, seg: Row)
    requires CellAt(seg, IncomeToLoanSegment) == IncomeToLoanSegmentOf(Number(r, IncomeToLoanRatio))
    requires CellAt(seg, HighFico) == CellAt(r, HighFico) && CellAt(seg, Lender) == CellAt(r, Lender)
    ensures (IsHighFico(seg) && SegmentAndLender(seg).Some?) <==> HighFicoPlaced(r)
  {
  }

  /** After segmenting, a row is high-FICO with a segment and a lender exactly when,
      before, it was high-FICO with a lender and a positive income-to-loan ratio. */
  lemma HighFicoPlacedAfterSegmenting(rows: seq<Row>)
    ensures (exists i :: 0 <= i < |rows| && IsHighFico(Segmented(rows)[i]) && SegmentAndLender(Segmented(rows)[i]).Some?)
            <==> exists i :: 0 <= i < |rows| && HighFicoPlaced(rows[i])
  {
    var seg := Segmented(rows);
    forall i | 0 <= i < |rows|
      ensures (IsHighFico(seg[i]) && SegmentAndLender(seg[i]).Some?) <==> HighFicoPlaced(rows[i])
    {
      SegmentedCells(rows, i);
      HighFicoPlacedRow(rows[i], seg[i]);
    }
  }

  /** The cells of a segmented row that the high-FICO slice reads. */
  lemma SegmentedCells(rows: seq<Row>, i: nat)
    requires i < |rows|
    ensures CellAt(Segmented(rows)[i], IncomeToLoanSegment) == IncomeToLoanSegmentOf(Number(rows[i], IncomeToLoanRatio))
    ensures CellAt(Segmented(rows)[i], HighFico) == CellAt(rows[i], HighFico)
    ensures CellAt(Segmented(rows)[i], Lender) == CellAt(rows[i], Lender)
  {
    var seg := Segmented(rows);
    assert IncomeToLoanSegment in seg[i];
    if HighFico in rows[i] {
      assert seg[i][HighFico] == rows[i][HighFico];
    }
    if Lender in rows[i] {
      assert seg[i][Lender] == rows[i][Lender];
    }
  }

  /** All views of one run; the segment-keyed ones are taken over the segmented rows. */
  function ComputeViews(rows: seq<Row>): (v: Views)
    ensures v.revenueByIncomeLoanHighFico.Some? <==> exists i :: 0 <= i < |rows| && HighFicoPlaced(rows[i])
    ensures v.revenueByIncomeLoanHighFico.Some? ==>
              v.revenueByIncomeLoanHighFico.value == GroupMean(Where(Segmented(rows), IsHighFico), SegmentAndLender, RevenueOf)
    ensures forall s, l :: (s, l) in v.approvalRatesByDti ==> exists j :: 0 <= j < |DtiLabels| && s == Text(DtiLabels[j])
  {
    var segmented := Segmented(rows);
    HighFicoSliceIsFilteredView(segmented);
    HighFicoPlacedAfterSegmenting(rows);
    DtiViewKeysAreLabels(rows);
    Views(
      ApprovalRatesPerLender(rows),
      ApprovalRatesByFico(rows),
      RevenuePerApprovedApp(rows),
      HighValueSegments(rows),
      ApprovalRatesByDti(segmented),
      HighFicoSlice(RevenueByIncomeLoanFico(segmented)))
  }

  /** The analysis of a frame: it fails, naming the column, when a column it looks up is
      not in the frame, and otherwise produces every view. */
  function Analyze(columns: set<Column>, rows: seq<Row>): (res: Result<Views, Column>)
    ensures res.Failure? <==> exists i :: 0 <= i < |AnalysisColumns| && AnalysisColumns[i] !in columns
    ensures res.Failure? ==> res.error !in columns && res.error in AnalysisColumns
    ensures res.Failure? ==> Some(res.error) == FirstMissing(AnalysisColumns, columns)
    ensures res.Success? ==> res.value == ComputeViews(rows)
  {
    match FirstMissing(AnalysisColumns, columns)
    case Some(c) => Failure(c)
    case None => Success(ComputeViews(rows))
  }

  /** The rows of lender A carry approvals 1 and 0 and the rows of lender B carry 1. */
  lemma ExampleGroups(r0: Row, r1: Row, r2: Row)
    requires r0 == map[Lender := Some(Text("A")), Approved := Some(Num(1.0))]
    requires r1 == map[Lender := Some(Text("A")), Approved := Some(Num(0.0))]
    requires r2 == map[Lender := Some(Text("B")), Approved := Some(Num(1.0))]
    ensures Matching([r0, r1, r2], LenderOf, ApprovedOf, Text("A")) == [1.0, 0.0]
    ensures Matching([r0, r1, r2], LenderOf, ApprovedOf, Text("B")) == [1.0]
    ensures forall i :: 0 <= i < 3 ==> LenderOf([r0, r1, r2][i]) in {Some(Text("A")), Some(Text("B"))}
  {
    var rows := [r0, r1, r2];
    assert LenderOf(r0) == Some(Text("A")) && ApprovedOf(r0) == Some(1.0);
    assert LenderOf(r1) == Some(Text("A")) && ApprovedOf(r1) == Some(0.0);
    assert LenderOf(r2) == Some(Text("B")) && ApprovedOf(r2) == Some(1.0);
    assert Text("A") != Text("B");
    assert rows[..2] == [r0, r1] && [r0, r1][..1] == [r0] && [r0][..0] == [];
    assert Matching([r0], LenderOf, ApprovedOf, Text("A")) == [1.0];
    assert Matching([r0, r1], LenderOf, ApprovedOf, Text("A")) == [1.0, 0.0];
    assert Matching([r0], LenderOf, ApprovedOf, Text("B")) == [];
    assert Matching([r0, r1], LenderOf, ApprovedOf, Text("B")) == [];
  }

  /** The means of the example's two groups. */
  lemma ExampleMeans()
    ensures Mean([1.0, 0.0]) == Some(0.5) && Mean([1.0]) == Some(1.0)
  {
    assert [1.0, 0.0][..1] == [1.0] && [1.0][..0] == [];
  }

  /** A lender whose group holds the approvals xs, at least one, has their mean as its rate. */
  lemma ApprovalRateOfGroup(rows: seq<Row>, lender: Value, xs: seq<real>)
    requires Matching(rows, LenderOf, ApprovedOf, lender) == xs && |xs| > 0
    ensures lender in ApprovalRatesPerLender(rows) && ApprovalRatesPerLender(rows)[lender] == Mean(xs)
  {
    GroupMeanAt(rows, LenderOf, ApprovedOf, lender, xs);
  }

  /** The approval-rate scenario: approvals (A,1), (A,0), (B,1) give rate 0.5 for lender A
      and 1.0 for lender B, and no other group. */
  lemma ApprovalRatesExample(r0: Row, r1: Row, r2: Row)
    requires r0 == map[Lender := Some(Text("A")), Approved := Some(Num(1.0))]
    requires r1 == map[Lender := Some(Text("A")), Approved := Some(Num(0.0))]
    requires r2 == map[Lender := Some(Text("B")), Approved := Some(Num(1.0))]
    ensures Text("A") in ApprovalRatesPerLender([r0, r1, r2]) && ApprovalRatesPerLender([r0, r1, r2])[Text("A")] == Some(0.5)
    ensures Text("B") in ApprovalRatesPerLender([r0, r1, r2]) && ApprovalRatesPerLender([r0, r1, r2])[Text("B")] == Some(1.0)
    ensures forall k :: k in ApprovalRatesPerLender([r0, r1, r2]) ==> k == Text("A") || k == Text("B")
  {
    ExampleGroups(r0, r1, r2);
    ExampleMeans();
    TwoLenderRates([r0, r1, r2], Text("A"), Text("B"), [1.0, 0.0], [1.0]);
  }

  /** Rows naming only lenders a and b, with approvals xs and ys, have the rates of exactly those two. */
  lemma TwoLenderRates(rows: seq<Row>, a: Value, b: Value, xs: seq<real>, ys: seq<real>)
    requires Matching(rows, LenderOf, ApprovedOf, a) == xs && |xs| > 0
    requires Matching(rows, LenderOf, ApprovedOf, b) == ys && |ys| > 0
    requires forall i :: 0 <= i < |rows| ==> LenderOf(rows[i]) in {Some(a), Some(b)}
    ensures a in ApprovalRatesPerLender(rows) && ApprovalRatesPerLender(rows)[a] == Mean(xs)
    ensures b in ApprovalRatesPerLender(rows) && ApprovalRatesPerLender(rows)[b] == Mean(ys)
    ensures forall k :: k in ApprovalRatesPerLender(rows) ==> k == a || k == b
  {
    ApprovalRateOfGroup(rows, a, xs);
    ApprovalRateOfGroup(rows, b, ys);
    GroupMeanKeysAmong(rows, LenderOf, ApprovedOf, {a, b});
  }

  /** With approval flags 0 or 1, every approval rate lies in [0, 1]. */
  lemma ApprovalRatesWithinUnitInterval(rows: seq<Row>)
    requires forall i :: 0 <= i < |rows| && ApprovedOf(rows[i]).Some? ==>
               ApprovedOf(rows[i]).value == 0.0 || ApprovedOf(rows[i]).value == 1.0
    ensures forall k :: k in ApprovalRatesPerLender(rows) && ApprovalRatesPerLender(rows)[k].Some? ==>
              0.0 <= ApprovalRatesPerLender(rows)[k].value <= 1.0
    ensures forall k :: k in ApprovalRatesByFico(rows) && ApprovalRatesByFico(rows)[k].Some? ==>
              0.0 <= ApprovalRatesByFico(rows)[k].value <= 1.0
    ensures forall k :: k in ApprovalRatesByDti(rows) && ApprovalRatesByDti(rows)[k].Some? ==>
              0.0 <= ApprovalRatesByDti(rows)[k].value <= 1.0
  {
    GroupMeanWithin(rows, LenderOf, ApprovedOf, 0.0, 1.0);
    GroupMeanWithin(rows, LenderAndFicoGroup, ApprovedOf, 0.0, 1.0);
    GroupMeanWithin(rows, DtiSegmentAndLender, ApprovedOf, 0.0, 1.0);
  }

  /** A row whose revenue potential is its bounty times its approval flag, as derivation writes it. */
  predicate RevenueConsistent(r: Row)
  {
    RevenueOf(r) == Features.RevenuePotentialOf(BountyOf(r), ApprovedOf(r))
  }

  /** Every derived row has a consistent revenue potential. */
  lemma DerivedRowsRevenueConsistent(raw: seq<Row>)
    ensures forall i :: 0 <= i < |raw| ==> RevenueConsistent(Features.DeriveTable(raw)[i])
  {
    forall i | 0 <= i < |raw| ensures RevenueConsistent(Features.DeriveTable(raw)[i]) {
      var r := raw[i];
      Features.DerivedLabelsAndRevenue(r);
      Features.DeriveKeepsRaw(r);
      assert Features.RawOf(Features.DeriveRow(r)).bounty == Features.RawOf(r).bounty;
      assert Features.RawOf(Features.DeriveRow(r)).approved == Features.RawOf(r).approved;
    }
  }

  /** Revenue per approved application uses only approved rows: a lender has an entry
      exactly when it has an approved row, and the entry is that lender's mean bounty
      over its approved rows. */
  lemma RevenuePerApprovedIsMeanBounty(rows: seq<Row>)
    requires forall i :: 0 <= i < |rows| ==> RevenueConsistent(rows[i])
    ensures forall k :: k in RevenuePerApprovedApp(rows) <==>
              exists i :: 0 <= i < |rows| && IsApproved(rows[i]) && LenderOf(rows[i]) == Some(k)
    ensures RevenuePerApprovedApp(rows) == GroupMean(Where(rows, IsApproved), LenderOf, BountyOf)
  {
    var w := Where(rows, IsApproved);
    GroupMeanWhereKeys(rows, IsApproved, LenderOf, RevenueOf);
    forall j | 0 <= j < |w| ensures RevenueOf(w[j]) == BountyOf(w[j]) {
      assert w[j] in w;
      var i :| 0 <= i < |rows| && rows[i] == w[j];
      assert RevenueConsistent(rows[i]) && IsApproved(rows[i]);
    }
    GroupMeanSameValues(w, LenderOf, RevenueOf, BountyOf);
  }

  /** The high-value view: a lender has an entry exactly when it has a high-FICO row, and
      the entry is the mean revenue potential over its high-FICO rows only. */
  lemma HighValueSegmentsSpec(rows: seq<Row>, k: Value)
    ensures k in HighValueSegments(rows) <==>
              exists i :: 0 <= i < |rows| && IsHighFico(rows[i]) && LenderOf(rows[i]) == Some(k)
    ensures k in HighValueSegments(rows) ==>
              HighValueSegments(rows)[k] == Mean(Matching(rows, HighFicoLender, RevenueOf, k))
  {
    GroupMeanWhereKeys(rows, IsHighFico, LenderOf, RevenueOf);
    MatchingWhere(rows, IsHighFico, LenderOf, RevenueOf, k, HighFicoLender, k);
  }

  /** Rows without a debt-to-income segment contribute to no cell of the segment view:
      dropping them leaves the view unchanged; and a cell exists exactly for the
      (segment, lender) pairs some row carries. */
  lemma ApprovalRatesByDtiIgnoresUnsegmented(rows: seq<Row>)
    ensures ApprovalRatesByDti(Where(rows, HasDtiSegment)) == ApprovalRatesByDti(rows)
    ensures forall s, l :: (s, l) in ApprovalRatesByDti(rows) <==>
              exists i :: 0 <= i < |rows| && CellAt(rows[i], DebtToIncomeSegment) == Some(s) && LenderOf(rows[i]) == Some(l)
  {
    GroupMeanWhereRedundant(rows, HasDtiSegment, DtiSegmentAndLender, ApprovedOf);
  }

  /** Every segment key of the debt-to-income view of segmented rows is one of the six
      ordered labels. */
  lemma DtiViewKeysAreLabels(rows: seq<Row>)
    ensures forall s, l :: (s, l) in ApprovalRatesByDti(Segmented(rows)) ==>
              exists j :: 0 <= j < |DtiLabels| && s == Text(DtiLabels[j])
  {
    var seg := Segmented(rows);
    ApprovalRatesByDtiIgnoresUnsegmented(seg);
    forall s, l | (s, l) in ApprovalRatesByDti(seg) ensures exists j :: 0 <= j < |DtiLabels| && s == Text(DtiLabels[j]) {
      var i :| 0 <= i < |seg| && CellAt(seg[i], DebtToIncomeSegment) == Some(s) && LenderOf(seg[i]) == Some(l);
      var cell := DtiSegmentOf(Number(rows[i], DebtToIncome));
      assert cell == Some(s);
      DtiEdgesIncreasing();
      var bin := Cut(DtiEdges, Number(rows[i], DebtToIncome));
      assert s == Text(DtiLabels[bin.value]);
    }
  }

  /** The high-FICO cross-section of the three-level revenue view is the two-level view of
      the high-FICO rows alone, and it exists exactly when some row has a segment, a
      lender and the high-FICO flag 1. */
  lemma HighFicoSliceIsFilteredView(rows: seq<Row>)
    ensures HighFicoSlice(RevenueByIncomeLoanFico(rows)) ==
              if exists i :: 0 <= i < |rows| && IsHighFico(rows[i]) && SegmentAndLender(rows[i]).Some?
              then Some(GroupMean(Where(rows, IsHighFico), SegmentAndLender, RevenueOf))
              else None
  {
    CrossSectionIsSelection(rows, SegmentFicoAndLender, One, IsHighFico, SegmentAndLender, RevenueOf);
  }
}
