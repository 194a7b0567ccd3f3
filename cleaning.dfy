/** Record cleaning: removal of exact duplicate rows and forward filling of missing
    cells, as specification functions over the row sequence. The in-place versions
    that the cleaning script runs are the loops of DataFrame.Frame. */
module Cleaning {
  import opened Wrappers
  import opened Tables

  /** The rows that survive duplicate removal: the first occurrence of each distinct
      row, in input order. */
  function Dedup(rows: seq<Row>): (out: seq<Row>)
    ensures |out| <= |rows|
    ensures forall x :: x in out <==> x in rows
    ensures forall i, j :: 0 <= i < j < |out| ==> out[i] != out[j]
  {
    if |rows| == 0 then []
    else
      var prefix := Dedup(rows[..|rows| - 1]);
      var last := rows[|rows| - 1];
      assert forall x :: x in rows <==> x in rows[..|rows| - 1] || x == last;
      if last in rows[..|rows| - 1] then prefix else prefix + [last]
  }

  /** Extending the input by row i keeps that row exactly when no earlier row equals it. */
  lemma DedupExtend(rows: seq<Row>, i: nat)
    requires i < |rows|
    ensures Dedup(rows[..i + 1]) == if rows[i] in rows[..i] then Dedup(rows[..i]) else Dedup(rows[..i]) + [rows[i]]
  {
    assert rows[..i + 1][..i] == rows[..i];
  }

  /** Removing duplicates never reorders survivors: the survivors of any prefix of the
      input are a prefix of the survivors of the whole input. */
  lemma {:induction false} DedupPrefix(rows: seq<Row>, n: nat)
    requires n <= |rows|
    ensures Dedup(rows[..n]) <= Dedup(rows)
  {
    if n < |rows| {
      DedupPrefix(rows[..|rows| - 1], n);
      assert rows[..|rows| - 1][..n] == rows[..n];
    } else {
      assert rows[..n] == rows;
    }
  }

  /** The position of the first occurrence of x in s. */
  function FirstIndex(s: seq<Row>, x: Row): (n: nat)
    requires x in s
    ensures n < |s| && s[n] == x
    ensures forall k :: 0 <= k < n ==> s[k] != x
  {
    if s[0] == x then 0 else 1 + FirstIndex(s[1..], x)
  }

  /** A first occurrence in a prefix is the first occurrence in the whole sequence. */
  lemma FirstIndexInPrefix(s: seq<Row>, n: nat, x: Row)
    requires n <= |s| && x in s[..n]
    ensures FirstIndex(s, x) == FirstIndex(s[..n], x)
  {
    var m := FirstIndex(s[..n], x);
    assert s[m] == x;
    assert forall k :: 0 <= k < m ==> s[..n][k] == s[k];
  }

  /** The survivors come in the order of their first occurrences in the input. Together
      with Dedup's own contract (the survivors are the distinct input rows, each once)
      this pins the output down: it is the first occurrence of each distinct row, in
      input order. */
  lemma {:induction false} DedupKeepsFirstOccurrenceOrder(rows: seq<Row>)
    ensures forall i, j :: 0 <= i < j < |Dedup(rows)| ==>
              FirstIndex(rows, Dedup(rows)[i]) < FirstIndex(rows, Dedup(rows)[j])
  {
    if |rows| > 0 {
      var n := |rows| - 1;
      var prefix := rows[..n];
      var last := rows[n];
      DedupKeepsFirstOccurrenceOrder(prefix);
      var d := Dedup(prefix);
      var out := Dedup(rows);
      forall i | 0 <= i < |d|
        ensures d[i] in prefix && d[i] in rows && FirstIndex(rows, d[i]) == FirstIndex(prefix, d[i]) < n
      {
        assert d[i] in d;
        var k := FirstIndex(prefix, d[i]);
        assert rows[k] == d[i];
        FirstIndexInPrefix(rows, n, d[i]);
      }
      if last !in prefix {
        assert out == d + [last];
        assert FirstIndex(rows, last) == n;
        forall i, j | 0 <= i < j < |out| ensures FirstIndex(rows, out[i]) < FirstIndex(rows, out[j]) {
          assert out[i] == d[i];
          if j < |d| {
            assert out[j] == d[j];
          }
        }
      } else {
        assert out == d;
      }
    }
  }

  /** A table with no duplicate rows is left exactly as it is; in particular
      removing duplicates twice is the same as removing them once. */
  lemma {:induction false} DedupOfDistinct(rows: seq<Row>)
    requires forall i, j :: 0 <= i < j < |rows| ==> rows[i] != rows[j]
    ensures Dedup(rows) == rows
  {
    if |rows| > 0 {
      var prefix := rows[..|rows| - 1];
      DedupOfDistinct(prefix);
      assert rows[|rows| - 1] !in prefix;
      assert prefix + [rows[|rows| - 1]] == rows;
    }
  }

  /** Two identical records come out of cleaning as exactly one. */
  lemma DedupIdenticalPair(r: Row)
    ensures Dedup([r, r]) == [r]
  {
    assert [r, r][..1] == [r];
    assert [r][..0] == [];
  }

  /** The nearest non-missing value of column c in rows, scanning backwards from the end;
      None when column c is missing in every row. */
  function LastSeen(rows: seq<Row>, c: Column): (v: Cell)
    ensures v.Some? ==> exists j :: 0 <= j < |rows| && Present(rows[j], c) && rows[j][c] == v
  {
    if |rows| == 0 then None
    else if Present(rows[|rows| - 1], c) then rows[|rows| - 1][c]
    else LastSeen(rows[..|rows| - 1], c)
  }

  /** Extending the scanned prefix by row i: LastSeen takes row i's cell when it is
      present and keeps its previous value otherwise. */
  lemma LastSeenExtend(rows: seq<Row>, i: nat, c: Column)
    requires i < |rows|
    ensures LastSeen(rows[..i + 1], c) == if Present(rows[i], c) then rows[i][c] else LastSeen(rows[..i], c)
  {
    assert rows[..i + 1][..i] == rows[..i];
  }

  /** LastSeen picks the latest present cell: if row j has column c present and no later
      row does, LastSeen is exactly that cell. */
  lemma {:induction false} LastSeenNearest(rows: seq<Row>, c: Column, j: nat)
    requires j < |rows| && Present(rows[j], c)
    requires forall k :: j < k < |rows| ==> !Present(rows[k], c)
    ensures LastSeen(rows, c) == rows[j][c]
  {
    if j < |rows| - 1 {
      var prefix := rows[..|rows| - 1];
      assert forall k :: j < k < |prefix| ==> prefix[k] == rows[k];
      LastSeenNearest(prefix, c, j);
    }
  }

  /** LastSeen is missing exactly when no row has column c present. */
  lemma {:induction false} LastSeenNone(rows: seq<Row>, c: Column)
    ensures LastSeen(rows, c).None? <==> forall j :: 0 <= j < |rows| ==> !Present(rows[j], c)
  {
    if |rows| > 0 && !Present(rows[|rows| - 1], c) {
      var prefix := rows[..|rows| - 1];
      LastSeenNone(prefix, c);
      assert forall j :: 0 <= j < |prefix| ==> prefix[j] == rows[j];
    }
  }

  /** Row r with each missing cell replaced by the nearest earlier value of its column. */
  function FillRow(r: Row, earlier: seq<Row>): Row
  {
    map c | c in r :: if r[c].Some? then r[c] else LastSeen(earlier, c)
  }

  /** Forward fill of the whole table, every row filled from the rows before it. */
  function FFill(rows: seq<Row>): (out: seq<Row>)
    ensures |out| == |rows|
    ensures forall i :: 0 <= i < |rows| ==> out[i].Keys == rows[i].Keys
  {
    seq(|rows|, i requires 0 <= i < |rows| => FillRow(rows[i], rows[..i]))
  }

  /** The per-column memory of a forward-fill scan: the last non-missing value of every
      column seen so far. */
  ghost predicate Remembers(last: map<Column, Value>, rows: seq<Row>)
  {
    forall c :: LastSeen(rows, c) == (if c in last then Some(last[c]) else None)
  }

  /** Row r with its missing cells taken from the scan's memory. */
  function FillFrom(r: Row, last: map<Column, Value>): Row
  {
    map c | c in r :: if r[c].Some? then r[c] else if c in last then Some(last[c]) else None
  }

  /** The scan's memory after row r: r's non-missing cells replace what was remembered. */
  function Remember(last: map<Column, Value>, r: Row): map<Column, Value>
  {
    last + map c | c in r && r[c].Some? :: r[c].value
  }

  /** Filling from the memory of the rows before row i is filling from those rows. */
  lemma FillFromMemory(rows: seq<Row>, i: nat, last: map<Column, Value>)
    requires i < |rows| && Remembers(last, rows[..i])
    ensures FillFrom(rows[i], last) == FillRow(rows[i], rows[..i])
  {
    var r := rows[i];
    forall c | c in r ensures FillFrom(r, last)[c] == FillRow(r, rows[..i])[c] {
      assert LastSeen(rows[..i], c) == (if c in last then Some(last[c]) else None);
    }
  }

  /** Remembering row i turns the memory of the rows before it into the memory of the rows
      up to and including it. */
  lemma RememberRow(rows: seq<Row>, i: nat, last: map<Column, Value>)
    requires i < |rows| && Remembers(last, rows[..i])
    ensures Remembers(Remember(last, rows[i]), rows[..i + 1])
  {
    var next := Remember(last, rows[i]);
    forall c ensures LastSeen(rows[..i + 1], c) == (if c in next then Some(next[c]) else None) {
      LastSeenExtend(rows, i, c);
      assert LastSeen(rows[..i], c) == (if c in last then Some(last[c]) else None);
    }
  }

  /** A table whose every row is filled from the rows before it is the forward fill. */
  lemma FFillByRows(rows: seq<Row>, out: seq<Row>)
    requires |out| == |rows|
    requires forall k :: 0 <= k < |rows| ==> out[k] == FillRow(rows[k], rows[..k])
    ensures out == FFill(rows)
  {
  }

  /** What forward fill does to one cell: a present cell is kept; a missing cell takes the
      value of the nearest earlier row whose cell in that column is present; a missing cell
      with no such earlier row stays missing. */
  lemma FFillCell(rows: seq<Row>, i: nat, c: Column)
    requires i < |rows| && c in rows[i]
    ensures rows[i][c].Some? ==> FFill(rows)[i][c] == rows[i][c]
    ensures rows[i][c].None? ==>
              forall j :: 0 <= j < i && Present(rows[j], c) && (forall k :: j < k < i ==> !Present(rows[k], c))
                ==> FFill(rows)[i][c] == rows[j][c]
    ensures rows[i][c].None? && (forall j :: 0 <= j < i ==> !Present(rows[j], c)) ==> FFill(rows)[i][c].None?
  {
    var earlier := rows[..i];
    assert forall k :: 0 <= k < i ==> earlier[k] == rows[k];
    if rows[i][c].None? {
      forall j | 0 <= j < i && Present(rows[j], c) && (forall k :: j < k < i ==> !Present(rows[k], c))
        ensures FFill(rows)[i][c] == rows[j][c]
      {
        LastSeenNearest(earlier, c, j);
      }
      LastSeenNone(earlier, c);
    }
  }

  /** After forward fill, a cell is missing only when its column has been missing in
      every row up to and including that one. */
  lemma FFillNoGapAfterFirstValue(rows: seq<Row>, i: nat, c: Column)
    requires i < |rows| && c in rows[i]
    ensures FFill(rows)[i][c].None? <==> forall j :: 0 <= j <= i ==> !Present(rows[j], c)
  {
    var earlier := rows[..i];
    assert forall k :: 0 <= k < i ==> earlier[k] == rows[k];
    LastSeenNone(earlier, c);
  }
}
