/** The loan table as the two scripts hold it: a frame whose rows the cleaning steps,
    the feature derivation and the segment columns update in place. Each method is
    specified by the value-level function it implements. */
module DataFrame {
  import opened Wrappers
  import opened Tables
  import Cleaning
  import Features
  import Segments
  import Analysis

  class Frame {
    /** The column labels of the frame. */
    var columns: set<Column>
    /** The records, in file order. */
    var rows: seq<Row>

    /** Every record has a cell (possibly missing) for exactly the frame's columns. */
    ghost predicate Valid()
      reads this
    {
      forall i :: 0 <= i < |rows| ==> rows[i].Keys == columns
    }

    /** A frame over the given columns and records. */
    constructor (columns: set<Column>, rows: seq<Row>)
      requires forall i :: 0 <= i < |rows| ==> rows[i].Keys == columns
      ensures Valid()
      ensures this.columns == columns && this.rows == rows
    {
      this.columns := columns;
      this.rows := rows;
    }

    /** Removes every record equal to an earlier one, keeping first occurrences in order. */
    method DropDuplicates()
      requires Valid()
      modifies this
      ensures Valid()
      ensures rows == Cleaning.Dedup(old(rows)) && columns == old(columns)
    {
      var input := rows;
      var out: seq<Row> := [];
      var seen: set<Row> := {};
      var i := 0;
      while i < |input|
        invariant 0 <= i <= |input|
        invariant rows == input && columns == old(columns)
        invariant out == Cleaning.Dedup(input[..i])
        invariant forall x :: x in seen <==> x in input[..i]
      {
        Cleaning.DedupExtend(input, i);
        assert forall x :: x in input[..i + 1] <==> x in input[..i] || x == input[i];
        if input[i] !in seen {
          out := out + [input[i]];
          seen := seen + {input[i]};
        }
        i := i + 1;
      }
      assert input[..i] == input;
      forall j | 0 <= j < |out| ensures out[j].Keys == columns {
        assert out[j] in out;
        var k :| 0 <= k < |input| && input[k] == out[j];
      }
      rows := out;
    }

    /** Fills each missing cell with the latest earlier non-missing value of its column,
        scanning the records in order and remembering the last value seen per column. */
    method ForwardFill()
      requires Valid()
      modifies this
      ensures Valid()
      ensures rows == Cleaning.FFill(old(rows)) && columns == old(columns)
    {
      var input := rows;
      var table := rows;
      var last: map<Column, Value> := map[];
      var i := 0;
      while i < |input|
        invariant 0 <= i <= |input| && |table| == |input|
        invariant rows == input && columns == old(columns)
        invariant Cleaning.Remembers(last, input[..i])
        invariant forall k :: 0 <= k < i ==> table[k] == Cleaning.FillRow(input[k], input[..k])
        invariant forall k :: i <= k < |input| ==> table[k] == input[k]
      {
        Cleaning.FillFromMemory(input, i, last);
        Cleaning.RememberRow(input, i, last);
        table := table[i := Cleaning.FillFrom(input[i], last)];
        last := Cleaning.Remember(last, input[i]);
        i := i + 1;
      }
      Cleaning.FFillByRows(input, table);
      rows := table;
      forall k | 0 <= k < |rows| ensures rows[k].Keys == columns {
        assert input[k].Keys == columns;
      }
    }

    /** Runs the eight assignment statements of the derivation in order, each adding its
        column to every record. A statement whose raw column is absent raises the key error
        that stops the script: it is reported, and the columns assigned by the statements
        before it stay in the frame. */
    method EngineerFeatures() returns (missing: Option<Column>)
      requires Valid()
      modifies this
      ensures Valid()
      ensures missing == FirstMissing(Features.RequiredColumns, old(columns))
      ensures rows == Features.DeriveTableSteps(old(rows), Features.FailingStep(Features.Steps, old(columns)))
      ensures columns == old(columns) + Features.Added(Features.FailingStep(Features.Steps, old(columns)))
      ensures missing.None? ==>
                rows == Features.DeriveTable(old(rows)) && columns == old(columns) + Features.DerivedColumns
    {
      ghost var n := Features.FailingStep(Features.Steps, columns);
      assert rows == Features.DeriveTableSteps(rows, 0);
      var i := 0;
      while i < |Features.Steps|
        invariant i <= n
        invariant columns == old(columns) + Features.Added(i)
        invariant rows == Features.DeriveTableSteps(old(rows), i)
        invariant Valid()
      {
        Features.StatementLookup(old(columns), i);
        missing := FirstMissing(Features.Steps[i].lookups, columns);
        if missing.Some? {
          return;
        }
        Features.DeriveTableStepsNext(old(rows), i);
        rows := Features.DeriveColumn(rows, Features.Steps[i].target);
        columns := columns + {Features.Steps[i].target};
        i := i + 1;
      }
      missing := None;
      Features.NoFailingStatement(old(columns));
      Features.DeriveTableStepsComplete(old(rows));
      Features.AddedAll();
    }

    /** Writes the segment of column source into column target of every record. */
    method AddSegment(target: Column, source: Column, edges: seq<real>, labels: seq<string>)
      requires Valid()
      requires Segments.Increasing(edges) && |labels| == |edges|
      modifies this
      ensures Valid()
      ensures rows == Segments.WithSegment(old(rows), target, source, edges, labels)
      ensures columns == old(columns) + {target}
    {
      rows := Segments.WithSegment(rows, target, source, edges, labels);
      columns := columns + {target};
    }

    /** The analysis run on the frame: when a column it looks up is missing, reports it;
        otherwise adds both segment columns in place and returns every view. The
        debt-to-income segment column is written before the income-to-loan ratio is
        looked up, so a frame lacking only that ratio keeps the first segment column. */
    method Analyze() returns (res: Result<Analysis.Views, Column>)
      requires Valid()
      modifies this
      ensures Valid()
      ensures res == Analysis.Analyze(old(columns), old(rows))
      ensures res.Failure? && res.error != IncomeToLoanRatio ==> rows == old(rows) && columns == old(columns)
      ensures res.Failure? && res.error == IncomeToLoanRatio ==>
                rows == Analysis.WithDtiSegment(old(rows)) && columns == old(columns) + {DebtToIncomeSegment}
      ensures res.Success? ==>
                rows == Analysis.Segmented(old(rows))
                && columns == old(columns) + {DebtToIncomeSegment, IncomeToLoanSegment}
    {
      var missing := FirstMissing(Analysis.AnalysisColumns, columns);
      if missing.Some? && missing.value != IncomeToLoanRatio {
        return Failure(missing.value);
      }
      var views := Analysis.ComputeViews(rows);
      Segments.DtiEdgesIncreasing();
      Segments.IncomeToLoanEdgesIncreasing();
      AddSegment(DebtToIncomeSegment, DebtToIncome, Segments.DtiEdges, Segments.DtiLabels);
      if missing.Some? {
        return Failure(missing.value);
      }
      AddSegment(IncomeToLoanSegment, IncomeToLoanRatio, Segments.IncomeToLoanEdges, Segments.IncomeToLoanLabels);
      res := Success(views);
    }
  }

  /** The preparation script on a frame: duplicates dropped, gaps forward filled, then the
      derived columns added, up to the first statement whose raw column is absent. */
  method Prepare(frame: Frame) returns (missing: Option<Column>)
    requires frame.Valid()
    modifies frame
    ensures frame.Valid()
    ensures missing == FirstMissing(Features.RequiredColumns, old(frame.columns))
    ensures frame.rows == Features.DeriveTableSteps(Cleaning.FFill(Cleaning.Dedup(old(frame.rows))),
                                                    Features.FailingStep(Features.Steps, old(frame.columns)))
    ensures frame.columns == old(frame.columns) + Features.Added(Features.FailingStep(Features.Steps, old(frame.columns)))
    ensures missing.None? ==>
              frame.rows == Features.DeriveTable(Cleaning.FFill(Cleaning.Dedup(old(frame.rows))))
              && frame.columns == old(frame.columns) + Features.DerivedColumns
  {
    frame.DropDuplicates();
    frame.ForwardFill();
    missing := frame.EngineerFeatures();
  }
}
