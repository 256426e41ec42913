/** "Only the most recent approval for each system": sort by submission time,
    then keep the last row of each PWSID. */
module Recency {
  import opened Seqs
  import opened Frames

  const SubmittedTime := "submitted_time"
  const PwsidColumn := "PWSID"

  /** The order `sort_values` puts `submitted_time` cells in: timestamps by
      value, and a missing time (NaT) after every timestamp. */
  predicate TimeLe(a: Cell, b: Cell)
  {
    if a.Time? && b.Time? then a.t <= b.t else !b.Time? || a.Time?
  }

  predicate RowLe(x: Row, y: Row)
  {
    TimeLe(Get(x, SubmittedTime), Get(y, SubmittedTime))
  }

  predicate SortedByTime(s: seq<Row>)
  {
    forall i, j :: 0 <= i < j < |s| ==> RowLe(s[i], s[j])
  }

  /** Places `x` in front of the first row not earlier than it. */
  function InsertByTime(x: Row, s: seq<Row>): (r: seq<Row>)
    ensures multiset(r) == multiset(s) + multiset{x}
    ensures forall y :: y in r ==> y == x || y in s
  {
    if s == [] then [x]
    else if RowLe(x, s[0]) then [x] + s
    else
      assert s == [s[0]] + s[1..];
      [s[0]] + InsertByTime(x, s[1..])
  }

  /** Inserting into a sorted sequence keeps it sorted. */
  lemma {:induction false} InsertSorted(x: Row, s: seq<Row>)
    requires SortedByTime(s)
    ensures SortedByTime(InsertByTime(x, s))
  {
    if s != [] && !RowLe(x, s[0]) {
      InsertSorted(x, s[1..]);
      var rest := InsertByTime(x, s[1..]);
      forall j | 0 <= j < |rest| ensures RowLe(s[0], rest[j]) {
        var y := rest[j];
        assert y in rest;
        if y != x {
          var k :| 0 <= k < |s[1..]| && s[1..][k] == y;
          assert s[k + 1] == y;
        }
      }
      var r := [s[0]] + rest;
      assert InsertByTime(x, s) == r;
      forall i, j | 0 <= i < j < |r| ensures RowLe(r[i], r[j]) {
        if i > 0 {
          assert r[i] == rest[i - 1] && r[j] == rest[j - 1];
        }
      }
    }
  }

  /** `sort_values("submitted_time")`: the same rows, ordered by time, NaT last. */
  function SortByTime(s: seq<Row>): (r: seq<Row>)
    ensures SortedByTime(r)
    ensures multiset(r) == multiset(s)
  {
    if s == [] then []
    else
      assert s == [s[0]] + s[1..];
      InsertSorted(s[0], SortByTime(s[1..]));
      InsertByTime(s[0], SortByTime(s[1..]))
  }

  function PwsidOf(r: Row): Cell { Get(r, PwsidColumn) }

  /** `sort_values("submitted_time").drop_duplicates(subset="PWSID", keep="last")`. */
  function LatestPerId(rows: seq<Row>): (r: seq<Row>)
    ensures multiset(r) <= multiset(rows)
    ensures forall y :: y in r ==> y in rows
  {
    var sorted := SortByTime(rows);
    SortMembers(rows);
    KeepLast(sorted, PwsidOf)
  }

  /** Sorting neither adds nor loses a row. */
  lemma SortMembers(rows: seq<Row>)
    ensures forall y :: y in SortByTime(rows) <==> y in rows
  {
    var sorted := SortByTime(rows);
    forall y ensures y in sorted <==> y in rows {
      assert y in sorted <==> y in multiset(sorted);
      assert y in rows <==> y in multiset(rows);
    }
  }

  /** No PWSID survives twice. */
  lemma LatestUnique(rows: seq<Row>)
    ensures forall i, j :: 0 <= i < j < |LatestPerId(rows)| ==>
      PwsidOf(LatestPerId(rows)[i]) != PwsidOf(LatestPerId(rows)[j])
  {
    KeepLastUnique(SortByTime(rows), PwsidOf);
  }

  /** Every PWSID of the input has a survivor. */
  lemma LatestCovers(rows: seq<Row>)
    ensures forall x :: x in rows ==> exists y :: y in LatestPerId(rows) && PwsidOf(y) == PwsidOf(x)
  {
    KeepLastCovers(SortByTime(rows), PwsidOf);
    SortMembers(rows);
  }

  /** Each survivor is at least as recent as every row with its PWSID; a row
      without a time counts as the most recent. Which of several equally
      recent rows survives is not stated. */
  lemma LatestIsNewest(rows: seq<Row>)
    ensures forall y, x :: y in LatestPerId(rows) && x in rows && PwsidOf(x) == PwsidOf(y) ==> RowLe(x, y)
  {
    var sorted := SortByTime(rows);
    KeepLastPicksLast(sorted, PwsidOf);
    SortMembers(rows);
    forall y, x | y in LatestPerId(rows) && x in rows && PwsidOf(x) == PwsidOf(y) ensures RowLe(x, y) {
      assert x in sorted;
      LastWithIsMax(sorted, PwsidOf(y), x);
    }
  }

  /** In a time-sorted sequence the last row with a PWSID is not earlier than any other row with it. */
  lemma {:induction false} LastWithIsMax(s: seq<Row>, k: Cell, x: Row)
    requires SortedByTime(s)
    requires x in s && PwsidOf(x) == k
    ensures RowLe(x, LastWith(s, PwsidOf, k))
  {
    if exists y :: y in s[1..] && PwsidOf(y) == k {
      var last := LastWith(s[1..], PwsidOf, k);
      assert LastWith(s, PwsidOf, k) == last;
      if x in s[1..] {
        LastWithIsMax(s[1..], k, x);
      } else {
        assert x == s[0];
        var m :| 0 <= m < |s[1..]| && s[1..][m] == last;
        assert s[m + 1] == last;
      }
    } else {
      assert x !in s[1..];
      assert x == s[0];
    }
  }
}
