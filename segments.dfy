/** Segmentation: binning of a ratio into fixed, ordered, right-closed intervals, as the
    analysis script does with the default behaviour of its interval-cutting call. */
module Segments {
  import opened Wrappers
  import opened Tables

  /** Finite bin edges of the debt-to-income segments; the last bin is unbounded above. */
  const DtiEdges: seq<real> := [0.0, 0.2, 0.4, 0.6, 0.8, 1.0]
  const DtiLabels: seq<string> := ["<0.2", "0.2-0.4", "0.4-0.6", "0.6-0.8", "0.8-1.0", ">1.0"]

  /** Finite bin edges of the income-to-loan segments; the last bin is unbounded above. */
  const IncomeToLoanEdges: seq<real> := [0.0, 0.1, 0.3, 0.5, 1.0]
  const IncomeToLoanLabels: seq<string> := ["<0.1", "0.1-0.3", "0.3-0.5", "0.5-1.0", ">1.0"]

  /** Bin edges must increase strictly (the cutting call rejects any other edge list). */
  predicate Increasing(edges: seq<real>)
  {
    forall i, j :: 0 <= i < j < |edges| ==> edges[i] < edges[j]
  }

  /** How many finite edges lie strictly below r. */
  function CountBelow(edges: seq<real>, r: real): (n: nat)
    requires Increasing(edges)
    ensures n <= |edges|
    ensures forall i :: 0 <= i < n ==> edges[i] < r
    ensures forall i :: n <= i < |edges| ==> r <= edges[i]
  {
    if |edges| == 0 then 0
    else if edges[|edges| - 1] < r then |edges|
    else CountBelow(edges[..|edges| - 1], r)
  }

  /** Bin i holds r: edges[i] < r <= edges[i + 1], the last bin having no upper edge. */
  predicate InBin(edges: seq<real>, i: nat, r: real)
  {
    i < |edges| && edges[i] < r && (i + 1 < |edges| ==> r <= edges[i + 1])
  }

  /** The bin of a ratio, right-closed: None for a missing ratio or one at or below the
      first edge. */
  function Cut(edges: seq<real>, r: Option<real>): (bin: Option<nat>)
    requires Increasing(edges)
    ensures bin.Some? <==> r.Some? && |edges| > 0 && edges[0] < r.value
    ensures bin.Some? ==> InBin(edges, bin.value, r.value)
  {
    if r.None? then None
    else
      var n := CountBelow(edges, r.value);
      if n == 0 then None else Some(n - 1)
  }

  /** The bins are disjoint: no ratio lies in two of them. */
  lemma BinUnique(edges: seq<real>, i: nat, j: nat, r: real)
    requires Increasing(edges) && InBin(edges, i, r) && InBin(edges, j, r)
    ensures i == j
  {
  }

  /** Cut finds the one bin that holds r, whenever some bin does. */
  lemma CutIsTheBin(edges: seq<real>, r: real)
    requires Increasing(edges)
    ensures forall j: nat :: InBin(edges, j, r) ==> Cut(edges, Some(r)) == Some(j)
  {
    forall j: nat | InBin(edges, j, r) ensures Cut(edges, Some(r)) == Some(j) {
      BinUnique(edges, j, Cut(edges, Some(r)).value, r);
    }
  }

  /** Binning is monotone: a larger ratio never falls in a lower bin, and once a ratio
      has a bin every larger one has too. */
  lemma CutMonotone(edges: seq<real>, r1: real, r2: real)
    requires Increasing(edges) && r1 <= r2 && Cut(edges, Some(r1)).Some?
    ensures Cut(edges, Some(r2)).Some? && Cut(edges, Some(r1)).value <= Cut(edges, Some(r2)).value
  {
    var n1, n2 := CountBelow(edges, r1), CountBelow(edges, r2);
    assert edges[n1 - 1] < r2;
  }

  /** The segment label of a ratio, or a missing cell when it has no bin. */
  function SegmentCell(edges: seq<real>, labels: seq<string>, r: Option<real>): Cell
    requires Increasing(edges) && |labels| == |edges|
  {
    match Cut(edges, r)
    case Some(i) => Some(Text(labels[i]))
    case None => None
  }

  lemma DtiEdgesIncreasing()
    ensures Increasing(DtiEdges)
  {
  }

  lemma IncomeToLoanEdgesIncreasing()
    ensures Increasing(IncomeToLoanEdges)
  {
  }

  /** The debt-to-income segment of a ratio. */
  function DtiSegmentOf(r: Option<real>): (cell: Cell)
    ensures cell.None? <==> r.None? || r.value <= 0.0
    ensures cell == Some(Text("<0.2")) <==> r.Some? && 0.0 < r.value <= 0.2
    ensures cell == Some(Text("0.2-0.4")) <==> r.Some? && 0.2 < r.value <= 0.4
    ensures cell == Some(Text("0.4-0.6")) <==> r.Some? && 0.4 < r.value <= 0.6
    ensures cell == Some(Text("0.6-0.8")) <==> r.Some? && 0.6 < r.value <= 0.8
    ensures cell == Some(Text("0.8-1.0")) <==> r.Some? && 0.8 < r.value <= 1.0
    ensures cell == Some(Text(">1.0")) <==> r.Some? && 1.0 < r.value
  {
    DtiEdgesIncreasing();
    if r.Some? then CutIsTheBin(DtiEdges, r.value); SegmentCell(DtiEdges, DtiLabels, r)
    else None
  }

  /** The income-to-loan segment of a ratio. */
  function IncomeToLoanSegmentOf(r: Option<real>): (cell: Cell)
    ensures cell.None? <==> r.None? || r.value <= 0.0
    ensures cell == Some(Text("<0.1")) <==> r.Some? && 0.0 < r.value <= 0.1
    ensures cell == Some(Text("0.1-0.3")) <==> r.Some? && 0.1 < r.value <= 0.3
    ensures cell == Some(Text("0.3-0.5")) <==> r.Some? && 0.3 < r.value <= 0.5
    ensures cell == Some(Text("0.5-1.0")) <==> r.Some? && 0.5 < r.value <= 1.0
    ensures cell == Some(Text(">1.0")) <==> r.Some? && 1.0 < r.value
  {
    IncomeToLoanEdgesIncreasing();
    if r.Some? then CutIsTheBin(IncomeToLoanEdges, r.value); SegmentCell(IncomeToLoanEdges, IncomeToLoanLabels, r)
    else None
  }

  /** The rows with a segment column written from a ratio column of each row. */
  function WithSegment(rows: seq<Row>, target: Column, source: Column, edges: seq<real>, labels: seq<string>)
    : (out: seq<Row>)
    requires Increasing(edges) && |labels| == |edges|
    ensures |out| == |rows|
    ensures forall i :: 0 <= i < |rows| ==> out[i].Keys == rows[i].Keys + {target}
    ensures forall i :: 0 <= i < |rows| ==> out[i][target] == SegmentCell(edges, labels, Number(rows[i], source))
    ensures forall i, c :: 0 <= i < |rows| && c in rows[i] && c != target ==> out[i][c] == rows[i][c]
  {
    seq(|rows|, i requires 0 <= i < |rows| => rows[i][target := SegmentCell(edges, labels, Number(rows[i], source))])
  }

  /** A debt-to-income ratio of exactly 0.2 is in the lowest segment, the right edge being closed. */
  lemma BoundaryScenario()
    ensures DtiSegmentOf(Some(0.2)) == Some(Text("<0.2"))
    ensures DtiSegmentOf(Some(0.0)) == None
    ensures IncomeToLoanSegmentOf(Some(0.1)) == Some(Text("<0.1"))
  {
  }
}
