/** Grouped means: partition the rows by a key, and average a value column over each
    group. Missing keys take part in no group (they are dropped when grouping); missing
    values are skipped by the mean, and a group whose values are all missing has an
    undefined mean (None) but is still a group. */
module Grouping {
  import opened Wrappers
  import opened Tables

  /** The running sum and count of the non-missing values seen for one key. */
  datatype Tally = Tally(sum: real, count: nat)

  function Sum(xs: seq<real>): real
  {
    if |xs| == 0 then 0.0 else Sum(xs[..|xs| - 1]) + xs[|xs| - 1]
  }

  /** The arithmetic mean, undefined for no values. */
  function Mean(xs: seq<real>): Option<real>
  {
    if |xs| == 0 then None else Some(Sum(xs) / |xs| as real)
  }

  /** The rows satisfying p, in their original order (a boolean-mask selection). */
  function Where(rows: seq<Row>, p: Row -> bool): (out: seq<Row>)
    ensures |out| <= |rows|
    ensures forall r :: r in out <==> r in rows && p(r)
    ensures forall r :: multiset(out)[r] == if p(r) then multiset(rows)[r] else 0
  {
    if |rows| == 0 then []
    else
      var prefix := Where(rows[..|rows| - 1], p);
      var last := rows[|rows| - 1];
      assert forall r :: r in rows <==> r in rows[..|rows| - 1] || r == last;
      assert rows == rows[..|rows| - 1] + [last];
      assert multiset(rows) == multiset(rows[..|rows| - 1]) + multiset{last};
      if p(last) then prefix + [last] else prefix
  }

  /** The non-missing values of the rows whose key is k, in row order. */
  function Matching<K(==)>(rows: seq<Row>, key: Row -> Option<K>, val: Row -> Option<real>, k: K): seq<real>
  {
    if |rows| == 0 then []
    else
      var last := rows[|rows| - 1];
      Matching(rows[..|rows| - 1], key, val, k)
        + (if key(last) == Some(k) && val(last).Some? then [val(last).value] else [])
  }

  /** The tally of key k so far: zero when k has not been seen. */
  function TallyOf<K>(t: map<K, Tally>, k: K): Tally
  {
    if k in t then t[k] else Tally(0.0, 0)
  }

  /** One pass over the rows accumulating, per key, the sum and count of its values.
      Every key tallied is carried by some row, and no count exceeds the number of rows. */
  function Totals<K(==)>(rows: seq<Row>, key: Row -> Option<K>, val: Row -> Option<real>): (totals: map<K, Tally>)
    ensures forall k :: k in totals ==> exists i :: 0 <= i < |rows| && key(rows[i]) == Some(k)
    ensures forall k :: k in totals ==> totals[k].count <= |rows|
  {
    if |rows| == 0 then map[]
    else
      var t := Totals(rows[..|rows| - 1], key, val);
      var last := rows[|rows| - 1];
      assert forall i :: 0 <= i < |rows| - 1 ==> rows[..|rows| - 1][i] == rows[i];
      assert key(rows[|rows| - 1]) == key(last);
      match key(last)
      case None => t
      case Some(k) =>
        var before := TallyOf(t, k);
        t[k := match val(last)
               case None => before
               case Some(v) => Tally(before.sum + v, before.count + 1)]
  }

  /** The one-pass totals hold a key exactly when some row carries it, and hold for
      every key the sum and count of the values of exactly the rows carrying it. */
  lemma {:induction false} TotalsSpec<K(!new)>(rows: seq<Row>, key: Row -> Option<K>, val: Row -> Option<real>)
    ensures forall k :: k in Totals(rows, key, val) <==> exists i :: 0 <= i < |rows| && key(rows[i]) == Some(k)
    ensures forall k :: TallyOf(Totals(rows, key, val), k) == Tally(Sum(Matching(rows, key, val, k)), |Matching(rows, key, val, k)|)
  {
    if |rows| > 0 {
      var prefix := rows[..|rows| - 1];
      var last := rows[|rows| - 1];
      TotalsSpec(prefix, key, val);
      assert forall i :: 0 <= i < |prefix| ==> prefix[i] == rows[i];
      forall k | exists i :: 0 <= i < |rows| && key(rows[i]) == Some(k) ensures k in Totals(rows, key, val) {
        var i :| 0 <= i < |rows| && key(rows[i]) == Some(k);
        if i < |prefix| {
          assert key(prefix[i]) == Some(k);
        }
      }
      forall k
        ensures TallyOf(Totals(rows, key, val), k) == Tally(Sum(Matching(rows, key, val, k)), |Matching(rows, key, val, k)|)
      {
        var m := Matching(prefix, key, val, k);
        if key(last) == Some(k) && val(last).Some? {
          assert (m + [val(last).value])[..|m|] == m;
        } else {
          assert m + [] == m;
        }
      }
    }
  }

  /** The mean of a tally, undefined for a zero count. */
  function Average(t: Tally): Option<real>
  {
    if t.count == 0 then None else Some(t.sum / t.count as real)
  }

  /** Group the rows by key and take the mean of val in each group: a key has an entry
      exactly when some row carries it, and that entry is the mean of the non-missing
      values of exactly the rows carrying it. */
  function GroupMean<K(==, !new)>(rows: seq<Row>, key: Row -> Option<K>, val: Row -> Option<real>)
    : (view: map<K, Option<real>>)
    ensures forall k :: k in view <==> exists i :: 0 <= i < |rows| && key(rows[i]) == Some(k)
    ensures forall k :: k in view ==> view[k] == Mean(Matching(rows, key, val, k))
  {
    TotalsSpec(rows, key, val);
    var t := Totals(rows, key, val);
    map k | k in t :: Average(TallyOf(t, k))
  }

  /** Bounds of the values bound the sum. */
  lemma {:induction false} SumWithin(xs: seq<real>, lo: real, hi: real)
    requires forall i :: 0 <= i < |xs| ==> lo <= xs[i] <= hi
    ensures lo * |xs| as real <= Sum(xs) <= hi * |xs| as real
  {
    if |xs| > 0 {
      SumWithin(xs[..|xs| - 1], lo, hi);
      assert lo * |xs| as real == lo * (|xs| - 1) as real + lo;
      assert hi * |xs| as real == hi * (|xs| - 1) as real + hi;
    }
  }

  /** Dividing by a positive count keeps a value between the scaled bounds. */
  lemma DivWithin(s: real, n: real, lo: real, hi: real)
    requires n > 0.0 && lo * n <= s <= hi * n
    ensures lo <= s / n <= hi
  {
    var q := s / n;
    assert q * n == s;
    assert (q - lo) * n == s - lo * n;
    assert (hi - q) * n == hi * n - s;
  }

  /** A mean lies within any bounds of its values. */
  lemma MeanWithin(xs: seq<real>, lo: real, hi: real)
    requires |xs| > 0
    requires forall i :: 0 <= i < |xs| ==> lo <= xs[i] <= hi
    ensures lo <= Mean(xs).value <= hi
  {
    SumWithin(xs, lo, hi);
    DivWithin(Sum(xs), |xs| as real, lo, hi);
  }

  /** Every value in a group comes from a row carrying that key, so bounds on the value
      column of those rows bound the group's values. */
  lemma {:induction false} MatchingFrom<K>(rows: seq<Row>, key: Row -> Option<K>, val: Row -> Option<real>, k: K, x: real)
    requires x in Matching(rows, key, val, k)
    ensures exists i :: 0 <= i < |rows| && key(rows[i]) == Some(k) && val(rows[i]) == Some(x)
  {
    var prefix := rows[..|rows| - 1];
    var last := rows[|rows| - 1];
    if x in Matching(prefix, key, val, k) {
      MatchingFrom(prefix, key, val, k, x);
      var i :| 0 <= i < |prefix| && key(prefix[i]) == Some(k) && val(prefix[i]) == Some(x);
      assert prefix[i] == rows[i];
    } else {
      assert key(rows[|rows| - 1]) == Some(k) && val(rows[|rows| - 1]) == Some(x);
    }
  }

  /** Two groupings select the same values when they pick out the same rows and agree on
      the value of every picked row. */
  lemma {:induction false} MatchingSameSelection<K, J>(
    rows: seq<Row>, key1: Row -> Option<K>, val1: Row -> Option<real>, k1: K,
    key2: Row -> Option<J>, val2: Row -> Option<real>, k2: J)
    requires forall i :: 0 <= i < |rows| ==> (key1(rows[i]) == Some(k1) <==> key2(rows[i]) == Some(k2))
    requires forall i :: 0 <= i < |rows| && key1(rows[i]) == Some(k1) ==> val1(rows[i]) == val2(rows[i])
    ensures Matching(rows, key1, val1, k1) == Matching(rows, key2, val2, k2)
  {
    if |rows| > 0 {
      var prefix := rows[..|rows| - 1];
      assert forall i :: 0 <= i < |prefix| ==> prefix[i] == rows[i];
      MatchingSameSelection(prefix, key1, val1, k1, key2, val2, k2);
    }
  }

  /** Grouping the rows selected by p is grouping all rows with the key of every
      unselected row treated as missing. */
  lemma {:induction false} MatchingWhere<K, J>(
    rows: seq<Row>, p: Row -> bool, key: Row -> Option<K>, val: Row -> Option<real>, k: K,
    key2: Row -> Option<J>, k2: J)
    requires forall i :: 0 <= i < |rows| ==> (key2(rows[i]) == Some(k2) <==> p(rows[i]) && key(rows[i]) == Some(k))
    ensures Matching(Where(rows, p), key, val, k) == Matching(rows, key2, val, k2)
  {
    if |rows| > 0 {
      var prefix := rows[..|rows| - 1];
      assert forall i :: 0 <= i < |prefix| ==> prefix[i] == rows[i];
      MatchingWhere(prefix, p, key, val, k, key2, k2);
      var w := Where(prefix, p);
      var last := rows[|rows| - 1];
      if p(last) {
        assert (w + [last])[..|w|] == w;
      }
    }
  }

  /** Bounds on the value column bound every mean of a grouping. */
  lemma GroupMeanWithin<K(!new)>(rows: seq<Row>, key: Row -> Option<K>, val: Row -> Option<real>, lo: real, hi: real)
    requires forall i :: 0 <= i < |rows| && val(rows[i]).Some? ==> lo <= val(rows[i]).value <= hi
    ensures forall k :: k in GroupMean(rows, key, val) && GroupMean(rows, key, val)[k].Some? ==>
              lo <= GroupMean(rows, key, val)[k].value <= hi
  {
    var view := GroupMean(rows, key, val);
    forall k | k in view && view[k].Some? ensures lo <= view[k].value <= hi {
      var xs := Matching(rows, key, val, k);
      forall j | 0 <= j < |xs| ensures lo <= xs[j] <= hi {
        MatchingFrom(rows, key, val, k, xs[j]);
      }
      MeanWithin(xs, lo, hi);
    }
  }

  /** Every selected row is a row of the input satisfying the selection. */
  lemma WhereFrom(rows: seq<Row>, p: Row -> bool, j: nat)
    requires j < |Where(rows, p)|
    ensures exists i :: 0 <= i < |rows| && rows[i] == Where(rows, p)[j] && p(rows[i])
  {
    var w := Where(rows, p);
    assert w[j] in w;
  }

  /** Every input row satisfying the selection is among the selected rows. */
  lemma WhereTo(rows: seq<Row>, p: Row -> bool, i: nat)
    requires i < |rows| && p(rows[i])
    ensures exists j :: 0 <= j < |Where(rows, p)| && Where(rows, p)[j] == rows[i]
  {
    assert rows[i] in rows;
    assert rows[i] in Where(rows, p);
  }

  /** After a selection, a key has a group exactly when some selected row carries it. */
  lemma GroupMeanWhereKeys<K(!new)>(rows: seq<Row>, p: Row -> bool, key: Row -> Option<K>, val: Row -> Option<real>)
    ensures forall k :: k in GroupMean(Where(rows, p), key, val) <==>
              exists i :: 0 <= i < |rows| && p(rows[i]) && key(rows[i]) == Some(k)
  {
    var w := Where(rows, p);
    forall k ensures k in GroupMean(w, key, val) <==> exists i :: 0 <= i < |rows| && p(rows[i]) && key(rows[i]) == Some(k) {
      if k in GroupMean(w, key, val) {
        var j :| 0 <= j < |w| && key(w[j]) == Some(k);
        WhereFrom(rows, p, j);
      }
      if exists i :: 0 <= i < |rows| && p(rows[i]) && key(rows[i]) == Some(k) {
        var i :| 0 <= i < |rows| && p(rows[i]) && key(rows[i]) == Some(k);
        WhereTo(rows, p, i);
      }
    }
  }

  /** A key with some value in its group is carried by some row. */
  lemma MatchingNonEmpty<K(!new)>(rows: seq<Row>, key: Row -> Option<K>, val: Row -> Option<real>, k: K)
    requires |Matching(rows, key, val, k)| > 0
    ensures exists i :: 0 <= i < |rows| && key(rows[i]) == Some(k)
  {
    MatchingFrom(rows, key, val, k, Matching(rows, key, val, k)[0]);
  }

  /** A key whose group holds the values xs, at least one, has the mean of xs as its entry. */
  lemma GroupMeanAt<K(!new)>(rows: seq<Row>, key: Row -> Option<K>, val: Row -> Option<real>, k: K, xs: seq<real>)
    requires Matching(rows, key, val, k) == xs && |xs| > 0
    ensures k in GroupMean(rows, key, val) && GroupMean(rows, key, val)[k] == Mean(xs)
  {
    MatchingNonEmpty(rows, key, val, k);
  }

  /** The keys of a grouping are among any set holding the key of every keyed row. */
  lemma GroupMeanKeysAmong<K(!new)>(rows: seq<Row>, key: Row -> Option<K>, val: Row -> Option<real>, ks: set<K>)
    requires forall i :: 0 <= i < |rows| && key(rows[i]).Some? ==> key(rows[i]).value in ks
    ensures GroupMean(rows, key, val).Keys <= ks
  {
    forall k | k in GroupMean(rows, key, val) ensures k in ks {
      var i :| 0 <= i < |rows| && key(rows[i]) == Some(k);
    }
  }

  /** Maps with the same keys and the same entries are equal. */
  lemma MapsEqual<K, V>(m1: map<K, V>, m2: map<K, V>)
    requires forall k :: k in m1 <==> k in m2
    requires forall k :: k in m1 ==> m1[k] == m2[k]
    ensures m1 == m2
  {
  }

  /** A selection that keeps every row carrying a key changes no group. */
  lemma GroupMeanWhereRedundant<K(!new)>(rows: seq<Row>, p: Row -> bool, key: Row -> Option<K>, val: Row -> Option<real>)
    requires forall i :: 0 <= i < |rows| && key(rows[i]).Some? ==> p(rows[i])
    ensures GroupMean(Where(rows, p), key, val) == GroupMean(rows, key, val)
  {
    var v1 := GroupMean(Where(rows, p), key, val);
    var v2 := GroupMean(rows, key, val);
    GroupMeanWhereKeys(rows, p, key, val);
    forall k ensures k in v1 <==> k in v2 {
      if k in v2 {
        var i :| 0 <= i < |rows| && key(rows[i]) == Some(k);
        assert p(rows[i]);
      }
    }
    forall k | k in v2 ensures v1[k] == v2[k] {
      MatchingWhere(rows, p, key, val, k, key, k);
    }
    MapsEqual(v1, v2);
  }

  /** Selecting the rows satisfying p and then grouping by key is grouping all rows by a
      key that is missing on every unselected row. */
  lemma GroupMeanWhereIsMaskedKey<K(!new)>(rows: seq<Row>, p: Row -> bool, key: Row -> Option<K>, val: Row -> Option<real>,
                                           masked: Row -> Option<K>)
    requires forall i :: 0 <= i < |rows| ==> masked(rows[i]) == if p(rows[i]) then key(rows[i]) else None
    ensures GroupMean(Where(rows, p), key, val) == GroupMean(rows, masked, val)
  {
    var v1 := GroupMean(Where(rows, p), key, val);
    var v2 := GroupMean(rows, masked, val);
    GroupMeanWhereKeys(rows, p, key, val);
    forall k ensures k in v1 <==> k in v2 {
      if k in v2 {
        var i :| 0 <= i < |rows| && masked(rows[i]) == Some(k);
      }
    }
    forall k | k in v1 ensures v1[k] == v2[k] {
      MatchingWhere(rows, p, key, val, k, masked, k);
    }
    MapsEqual(v1, v2);
  }

  /** Two value columns that agree on every keyed row give the same grouped means. */
  lemma GroupMeanSameValues<K(!new)>(rows: seq<Row>, key: Row -> Option<K>, val1: Row -> Option<real>, val2: Row -> Option<real>)
    requires forall i :: 0 <= i < |rows| && key(rows[i]).Some? ==> val1(rows[i]) == val2(rows[i])
    ensures GroupMean(rows, key, val1) == GroupMean(rows, key, val2)
  {
    var v1 := GroupMean(rows, key, val1);
    var v2 := GroupMean(rows, key, val2);
    forall k | k in v1 ensures v2[k] == v1[k] {
      MatchingSameSelection(rows, key, val1, k, key, val2, k);
    }
    MapsEqual(v1, v2);
  }

  /** Whether a three-level view has some key whose middle level is h. */
  predicate HasLevel<A(==), B(==), C(==)>(view: map<(A, B, C), Option<real>>, h: B)
  {
    exists t :: t in view && t.1 == h
  }

  /** The cross-section of a three-level view at middle level h, keyed by the outer levels. */
  function CrossSection<A(==), B(==), C(==)>(view: map<(A, B, C), Option<real>>, h: B): map<(A, C), Option<real>>
  {
    map j | j in (set t | t in view && t.1 == h :: (t.0, t.2)) :: view[(j.0, h, j.1)]
  }

  /** The requirement linking a three-level key at middle level h to a selection p and
      a two-level key: a row has key (a, h, c) exactly when it is selected and has outer
      key (a, c). */
  predicate SliceAgrees<A(==), B(==), C(==)>(rows: seq<Row>, key3: Row -> Option<(A, B, C)>, h: B, p: Row -> bool, key2: Row -> Option<(A, C)>)
  {
    forall i :: 0 <= i < |rows| ==>
      ((key3(rows[i]).Some? && key3(rows[i]).value.1 == h) <==> (p(rows[i]) && key2(rows[i]).Some?)) &&
      (key3(rows[i]).Some? && key3(rows[i]).value.1 == h ==>
         key2(rows[i]) == Some((key3(rows[i]).value.0, key3(rows[i]).value.2)))
  }

  /** The three-level view has a key at level h exactly when some selected row has an
      outer key. */
  lemma CrossSectionExists<A(!new), B(!new), C(!new)>(
    rows: seq<Row>, key3: Row -> Option<(A, B, C)>, h: B, p: Row -> bool, key2: Row -> Option<(A, C)>,
    val: Row -> Option<real>)
    requires SliceAgrees(rows, key3, h, p, key2)
    ensures HasLevel(GroupMean(rows, key3, val), h) <==> exists i :: 0 <= i < |rows| && p(rows[i]) && key2(rows[i]).Some?
  {
    var v3 := GroupMean(rows, key3, val);
    if exists i :: 0 <= i < |rows| && p(rows[i]) && key2(rows[i]).Some? {
      var i :| 0 <= i < |rows| && p(rows[i]) && key2(rows[i]).Some?;
      var j := key2(rows[i]).value;
      assert key3(rows[i]) == Some((j.0, h, j.1));
      assert (j.0, h, j.1) in v3;
    }
    if HasLevel(v3, h) {
      var t :| t in v3 && t.1 == h;
      var i :| 0 <= i < |rows| && key3(rows[i]) == Some(t);
      assert key3(rows[i]) == Some((t.0, h, t.2));
    }
  }

  /** A key of the selected grouping appears at level h of the three-level view. */
  lemma CrossSectionKeyFromSelection<A(!new), B(!new), C(!new)>(
    rows: seq<Row>, key3: Row -> Option<(A, B, C)>, h: B, p: Row -> bool, key2: Row -> Option<(A, C)>,
    val: Row -> Option<real>, j: (A, C))
    requires SliceAgrees(rows, key3, h, p, key2)
    requires j in GroupMean(Where(rows, p), key2, val)
    ensures (j.0, h, j.1) in GroupMean(rows, key3, val)
  {
    GroupMeanWhereKeys(rows, p, key2, val);
    var i :| 0 <= i < |rows| && p(rows[i]) && key2(rows[i]) == Some(j);
    assert key3(rows[i]) == Some((j.0, h, j.1));
  }

  /** A key at level h of the three-level view is a key of the selected grouping. */
  lemma CrossSectionKeyToSelection<A(!new), B(!new), C(!new)>(
    rows: seq<Row>, key3: Row -> Option<(A, B, C)>, h: B, p: Row -> bool, key2: Row -> Option<(A, C)>,
    val: Row -> Option<real>, j: (A, C))
    requires SliceAgrees(rows, key3, h, p, key2)
    requires (j.0, h, j.1) in GroupMean(rows, key3, val)
    ensures j in GroupMean(Where(rows, p), key2, val)
  {
    GroupMeanWhereKeys(rows, p, key2, val);
    var i :| 0 <= i < |rows| && key3(rows[i]) == Some((j.0, h, j.1));
    assert p(rows[i]) && key2(rows[i]) == Some(j);
  }

  /** The group of (a, c) among the selected rows is the group of (a, h, c) among all. */
  lemma CrossSectionValue<A(!new), B(!new), C(!new)>(
    rows: seq<Row>, key3: Row -> Option<(A, B, C)>, h: B, p: Row -> bool, key2: Row -> Option<(A, C)>,
    val: Row -> Option<real>, j: (A, C))
    requires SliceAgrees(rows, key3, h, p, key2)
    ensures Matching(Where(rows, p), key2, val, j) == Matching(rows, key3, val, (j.0, h, j.1))
  {
    forall i | 0 <= i < |rows|
      ensures key3(rows[i]) == Some((j.0, h, j.1)) <==> p(rows[i]) && key2(rows[i]) == Some(j)
    {
    }
    MatchingWhere(rows, p, key2, val, j, key3, (j.0, h, j.1));
  }

  /** The cross-section at h holds (a, c) exactly when the view holds (a, h, c), with
      the same entry. */
  lemma CrossSectionAt<A, B, C>(view: map<(A, B, C), Option<real>>, h: B, j: (A, C))
    ensures j in CrossSection(view, h) <==> (j.0, h, j.1) in view
    ensures j in CrossSection(view, h) ==> CrossSection(view, h)[j] == view[(j.0, h, j.1)]
  {
    if (j.0, h, j.1) in view {
      assert (j.0, h, j.1).1 == h;
    }
  }

  /** The cross-section at h holds exactly the outer keys of the view's keys at level h,
      each with the view's entry. */
  lemma CrossSectionEntries<A, B, C>(view: map<(A, B, C), Option<real>>, h: B)
    ensures forall j :: j in CrossSection(view, h) <==> (j.0, h, j.1) in view
    ensures forall j :: j in CrossSection(view, h) ==> CrossSection(view, h)[j] == view[(j.0, h, j.1)]
  {
    forall j ensures j in CrossSection(view, h) <==> (j.0, h, j.1) in view {
      CrossSectionAt(view, h, j);
    }
  }

  /** Grouping by three levels and taking the cross-section at h is grouping the rows
      selected by p by the two outer levels. The cross-section has some key exactly when
      some selected row has an outer key. */
  lemma CrossSectionIsSelection<A(!new), B(!new), C(!new)>(
    rows: seq<Row>, key3: Row -> Option<(A, B, C)>, h: B, p: Row -> bool, key2: Row -> Option<(A, C)>,
    val: Row -> Option<real>)
    requires SliceAgrees(rows, key3, h, p, key2)
    ensures HasLevel(GroupMean(rows, key3, val), h) <==> exists i :: 0 <= i < |rows| && p(rows[i]) && key2(rows[i]).Some?
    ensures CrossSection(GroupMean(rows, key3, val), h) == GroupMean(Where(rows, p), key2, val)
  {
    CrossSectionExists(rows, key3, h, p, key2, val);
    var v3 := GroupMean(rows, key3, val);
    var v2 := GroupMean(Where(rows, p), key2, val);
    var slice := CrossSection(v3, h);
    forall j ensures j in slice <==> j in v2 {
      CrossSectionAt(v3, h, j);
      if j in v2 {
        CrossSectionKeyFromSelection(rows, key3, h, p, key2, val, j);
      }
      if j in slice {
        CrossSectionKeyToSelection(rows, key3, h, p, key2, val, j);
      }
    }
    forall j | j in slice ensures slice[j] == v2[j] {
      CrossSectionAt(v3, h, j);
      CrossSectionValue(rows, key3, h, p, key2, val, j);
    }
    MapsEqual(slice, v2);
  }
}
