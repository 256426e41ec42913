/** `left.merge(right, on=key, how="left")` as pandas 2 performs it: every
    left row, in order, paired with each right row carrying the same key
    (in right order), or kept once with empty right columns when none does.
    A column both frames have besides the key is suffixed "_x" on the left
    and "_y" on the right; a suffix that makes two columns of one side share
    a name raises. */
module Join {
  import opened Seqs
  import opened Frames

  function Common(left: Table, right: Table, on: string): set<string>
  {
    left.columns * right.columns - {on}
  }

  function Suffixed(c: string, common: set<string>, suffix: string): string
  {
    if c in common then c + suffix else c
  }

  /** Suffixing gives two columns of `cols` the same name. */
  predicate SuffixClash(cols: set<string>, common: set<string>, suffix: string)
  {
    exists a, b :: a in cols && b in cols && a != b && Suffixed(a, common, suffix) == Suffixed(b, common, suffix)
  }

  /** The merge goes through: both frames have the key and no suffix clashes. */
  predicate Mergeable(left: Table, right: Table, on: string)
  {
    on in left.columns && on in right.columns &&
    !SuffixClash(left.columns, Common(left, right, on), "_x") &&
    !SuffixClash(right.columns - {on}, Common(left, right, on), "_y")
  }

  /** The key does not itself end in the right-hand suffix, so no suffixed
      right column can take the key's name. */
  predicate KeyNotSuffixed(on: string)
  {
    |on| < 2 || on[|on| - 2..] != "_y"
  }

  /** The cells of one side under their output names. */
  function Side(r: Row, cols: set<string>, common: set<string>, suffix: string): (p: Row)
    requires !SuffixClash(cols, common, suffix)
    ensures forall c :: c in cols ==> Suffixed(c, common, suffix) in p && p[Suffixed(c, common, suffix)] == Get(r, c)
    ensures forall k :: k in p ==> exists c :: c in cols && Suffixed(c, common, suffix) == k
  {
    map c | c in cols :: Suffixed(c, common, suffix) := Get(r, c)
  }

  /** One output row: the left row's cells under their left names, then the
      right row's cells under their right names (a name both sides produce
      holds the right cell). */
  function JoinRow(l: Row, r: Row, left: Table, right: Table, on: string): Row
    requires Mergeable(left, right, on)
  {
    Side(l, left.columns, Common(left, right, on), "_x") +
    Side(r, right.columns - {on}, Common(left, right, on), "_y")
  }

  function SameKey(on: string, k: Cell): Row -> bool
  {
    (r: Row) => Get(r, on) == k
  }

  /** The right rows whose key equals the left row's, in right order. */
  function Matches(l: Row, right: Table, on: string): (m: seq<Row>)
    ensures forall r :: r in m <==> r in right.rows && Get(r, on) == Get(l, on)
  {
    Filter(right.rows, SameKey(on, Get(l, on)))
  }

  function Unmatched(right: Table, on: string): Row -> bool
  {
    (l: Row) => Matches(l, right, on) == []
  }

  function IsMatched(right: Table, on: string): Row -> bool
  {
    (l: Row) => Matches(l, right, on) != []
  }

  function PairWith(l: Row, left: Table, right: Table, on: string): Row -> Row
    requires Mergeable(left, right, on)
  {
    (r: Row) => JoinRow(l, r, left, right, on)
  }

  /** The left row kept alone, its right columns empty. */
  function Unjoined(left: Table, right: Table, on: string): Row -> Row
    requires Mergeable(left, right, on)
  {
    (l: Row) => JoinRow(l, map[], left, right, on)
  }

  /** The output rows one left row contributes. */
  function Joined(left: Table, right: Table, on: string): Row -> seq<Row>
    requires Mergeable(left, right, on)
  {
    (l: Row) =>
      if Matches(l, right, on) == [] then [JoinRow(l, map[], left, right, on)]
      else Map(Matches(l, right, on), PairWith(l, left, right, on))
  }

  /** The output rows of matched left rows only. */
  function JoinedMatches(left: Table, right: Table, on: string): Row -> seq<Row>
    requires Mergeable(left, right, on)
  {
    (l: Row) =>
      if Matches(l, right, on) == [] then []
      else Map(Matches(l, right, on), PairWith(l, left, right, on))
  }

  function OutColumns(left: Table, right: Table, on: string): set<string>
  {
    var common := Common(left, right, on);
    (set c | c in left.columns :: Suffixed(c, common, "_x")) +
    (set c | c in right.columns - {on} :: Suffixed(c, common, "_y"))
  }

  function LeftJoin(left: Table, right: Table, on: string): (r: Result<Table>)
    ensures r.Ok? <==> Mergeable(left, right, on)
    ensures r.Err? ==> (r.error == MissingColumn(on) <==> on !in left.columns || on !in right.columns)
    ensures r.Err? ==> (r.error == DuplicateColumns <==> on in left.columns && on in right.columns)
    ensures r.Ok? ==> r.value.columns == OutColumns(left, right, on)
  {
    if on !in left.columns || on !in right.columns then Err(MissingColumn(on))
    else if !Mergeable(left, right, on) then Err(DuplicateColumns)
    else Ok(Table(OutColumns(left, right, on), FlatMap(left.rows, Joined(left, right, on))))
  }

  lemma SuffixedEnds(c: string)
    ensures (c + "_y")[|c + "_y"| - 2..] == "_y"
  {
  }

  /** An output row keeps the left row's key and the right row's cell of a
      column only the right frame has. */
  lemma JoinRowCells(l: Row, r: Row, left: Table, right: Table, on: string, marker: string)
    requires Mergeable(left, right, on) && KeyNotSuffixed(on)
    requires marker in right.columns && marker !in left.columns && marker != on
    ensures Get(JoinRow(l, r, left, right, on), on) == Get(l, on)
    ensures Get(JoinRow(l, r, left, right, on), marker) == Get(r, marker)
  {
    var common := Common(left, right, on);
    var lp := Side(l, left.columns, common, "_x");
    var rp := Side(r, right.columns - {on}, common, "_y");
    assert JoinRow(l, r, left, right, on) == lp + rp;
    assert Suffixed(on, common, "_x") == on;
    forall c | c in right.columns - {on} ensures Suffixed(c, common, "_y") != on {
      if c in common {
        SuffixedEnds(c);
      }
    }
    assert Suffixed(marker, common, "_y") == marker;
  }

  /** The marker column of the right frame is filled in every right row. */
  predicate MarkedRight(left: Table, right: Table, on: string, marker: string)
  {
    marker in right.columns && marker !in left.columns && marker != on &&
    forall r :: r in right.rows ==> Get(r, marker) != Null
  }

  function MarkerMissing(marker: string): Row -> bool
  {
    (x: Row) => Get(x, marker) == Null
  }

  function MarkerPresent(marker: string): Row -> bool
  {
    (x: Row) => Get(x, marker) != Null
  }

  /** What one left row leaves after the rows with a marker are removed. */
  lemma UnmatchedPart(l: Row, left: Table, right: Table, on: string, marker: string)
    requires Mergeable(left, right, on) && KeyNotSuffixed(on) && MarkedRight(left, right, on, marker)
    ensures Filter(Joined(left, right, on)(l), MarkerMissing(marker)) ==
      if Matches(l, right, on) == [] then [JoinRow(l, map[], left, right, on)] else []
  {
    var rows := Joined(left, right, on)(l);
    if Matches(l, right, on) == [] {
      JoinRowCells(l, map[], left, right, on, marker);
      assert rows == [JoinRow(l, map[], left, right, on)];
      assert rows[1..] == [];
    } else {
      MarkedPairs(l, left, right, on, marker);
      FilterNone(rows, MarkerMissing(marker));
    }
  }

  /** What one left row leaves after the rows without a marker are removed. */
  lemma MatchedPart(l: Row, left: Table, right: Table, on: string, marker: string)
    requires Mergeable(left, right, on) && KeyNotSuffixed(on) && MarkedRight(left, right, on, marker)
    ensures Filter(Joined(left, right, on)(l), MarkerPresent(marker)) == JoinedMatches(left, right, on)(l)
  {
    var rows := Joined(left, right, on)(l);
    if Matches(l, right, on) == [] {
      JoinRowCells(l, map[], left, right, on, marker);
      assert rows == [JoinRow(l, map[], left, right, on)];
      FilterNone(rows, MarkerPresent(marker));
    } else {
      MarkedPairs(l, left, right, on, marker);
      FilterAll(rows, MarkerPresent(marker));
    }
  }

  /** A matched left row's output rows all carry their right row's marker. */
  lemma MarkedPairs(l: Row, left: Table, right: Table, on: string, marker: string)
    requires Mergeable(left, right, on) && KeyNotSuffixed(on) && MarkedRight(left, right, on, marker)
    requires Matches(l, right, on) != []
    ensures forall x :: x in Joined(left, right, on)(l) ==> Get(x, marker) != Null
  {
    var m := Matches(l, right, on);
    var rows := Map(m, PairWith(l, left, right, on));
    assert Joined(left, right, on)(l) == rows;
    forall i | 0 <= i < |rows| ensures Get(rows[i], marker) != Null {
      assert m[i] in m;
      JoinRowCells(l, m[i], left, right, on, marker);
    }
  }

  /** The output rows with an empty marker are exactly the unmatched left
      rows, each once, in left order. */
  lemma UnmatchedRows(left: Table, right: Table, on: string, marker: string)
    requires Mergeable(left, right, on) && KeyNotSuffixed(on) && MarkedRight(left, right, on, marker)
    ensures Filter(FlatMap(left.rows, Joined(left, right, on)), MarkerMissing(marker)) ==
      Map(Filter(left.rows, Unmatched(right, on)), Unjoined(left, right, on))
  {
    var f := Joined(left, right, on);
    var g := (l: Row) => if Matches(l, right, on) == [] then [JoinRow(l, map[], left, right, on)] else [];
    forall l | l in left.rows ensures g(l) == Filter(f(l), MarkerMissing(marker)) {
      UnmatchedPart(l, left, right, on, marker);
    }
    FilterFlatMap(left.rows, f, MarkerMissing(marker), g);
    FlatMapSingletons(left.rows, g, Unmatched(right, on), Unjoined(left, right, on));
  }

  /** The output rows with a marker are exactly the matched pairs. */
  lemma MatchedRows(left: Table, right: Table, on: string, marker: string)
    requires Mergeable(left, right, on) && KeyNotSuffixed(on) && MarkedRight(left, right, on, marker)
    ensures Filter(FlatMap(left.rows, Joined(left, right, on)), MarkerPresent(marker)) ==
      FlatMap(left.rows, JoinedMatches(left, right, on))
  {
    var f := Joined(left, right, on);
    var g := JoinedMatches(left, right, on);
    forall l | l in left.rows ensures g(l) == Filter(f(l), MarkerPresent(marker)) {
      MatchedPart(l, left, right, on, marker);
    }
    FilterFlatMap(left.rows, f, MarkerPresent(marker), g);
  }

  /** The keys the rows carry. */
  function KeysOf(rows: seq<Row>, on: string): set<Cell>
  {
    set x | x in rows :: Get(x, on)
  }

  /** The keys of the rows without a match are exactly the keys of the
      unmatched left rows. */
  lemma UnmatchedKeys(left: Table, right: Table, on: string, marker: string)
    requires Mergeable(left, right, on) && KeyNotSuffixed(on) && MarkedRight(left, right, on, marker)
    ensures KeysOf(Filter(FlatMap(left.rows, Joined(left, right, on)), MarkerMissing(marker)), on) ==
      KeysOf(Filter(left.rows, Unmatched(right, on)), on)
  {
    UnmatchedRows(left, right, on, marker);
    var kept := Filter(left.rows, Unmatched(right, on));
    forall i | 0 <= i < |kept| ensures Get(Unjoined(left, right, on)(kept[i]), on) == Get(kept[i], on) {
      JoinRowCells(kept[i], map[], left, right, on, marker);
    }
    MapKeepsKeys(kept, Unjoined(left, right, on), on);
  }

  lemma MapKeepsKeys(s: seq<Row>, h: Row -> Row, on: string)
    requires forall i :: 0 <= i < |s| ==> Get(h(s[i]), on) == Get(s[i], on)
    ensures KeysOf(Map(s, h), on) == KeysOf(s, on)
  {
    var rows := Map(s, h);
    forall k | k in KeysOf(rows, on) ensures k in KeysOf(s, on) {
      var x :| x in rows && Get(x, on) == k;
      var i :| 0 <= i < |rows| && rows[i] == x;
      assert s[i] in s;
    }
    forall k | k in KeysOf(s, on) ensures k in KeysOf(rows, on) {
      var l :| l in s && Get(l, on) == k;
      var i :| 0 <= i < |s| && s[i] == l;
      assert rows[i] in rows;
    }
  }

  /** Every matched output row carries a right row's key and marker, and no
      unmatched left row shares its key. */
  lemma MatchedRowsHaveMatch(left: Table, right: Table, on: string, marker: string)
    requires Mergeable(left, right, on) && KeyNotSuffixed(on) && MarkedRight(left, right, on, marker)
    ensures forall x :: x in Filter(FlatMap(left.rows, Joined(left, right, on)), MarkerPresent(marker)) ==>
      exists r :: r in right.rows && Carries(r, x, on, marker)
    ensures forall x, l ::
      x in Filter(FlatMap(left.rows, Joined(left, right, on)), MarkerPresent(marker)) && l in left.rows && Matches(l, right, on) == []
      ==> Get(l, on) != Get(x, on)
  {
    MatchedRows(left, right, on, marker);
    MatchedHaveRight(left, right, on, marker);
    var g := JoinedMatches(left, right, on);
    forall x, l | x in FlatMap(left.rows, g) && l in left.rows && Matches(l, right, on) == []
      ensures Get(l, on) != Get(x, on)
    {
      var r :| r in right.rows && Carries(r, x, on, marker);
      assert r !in Matches(l, right, on);
    }
  }

  /** `x` holds the key and the marker of the right row `r`. */
  predicate Carries(r: Row, x: Row, on: string, marker: string)
  {
    Get(r, on) == Get(x, on) && Get(r, marker) == Get(x, marker)
  }

  lemma MatchedHaveRight(left: Table, right: Table, on: string, marker: string)
    requires Mergeable(left, right, on) && KeyNotSuffixed(on) && MarkedRight(left, right, on, marker)
    ensures forall x :: x in FlatMap(left.rows, JoinedMatches(left, right, on)) ==>
      exists r :: r in right.rows && Carries(r, x, on, marker)
  {
    var g := JoinedMatches(left, right, on);
    forall x | x in FlatMap(left.rows, g)
      ensures exists r :: r in right.rows && Carries(r, x, on, marker)
    {
      var l :| l in left.rows && x in g(l);
      MatchedPairAt(l, x, left, right, on, marker);
    }
  }

  lemma MatchedPairAt(l: Row, x: Row, left: Table, right: Table, on: string, marker: string)
    requires Mergeable(left, right, on) && KeyNotSuffixed(on) && MarkedRight(left, right, on, marker)
    requires x in JoinedMatches(left, right, on)(l)
    ensures exists r :: r in right.rows && Carries(r, x, on, marker)
  {
    var m := Matches(l, right, on);
    var i :| 0 <= i < |m| && JoinedMatches(left, right, on)(l)[i] == x;
    var r := m[i];
    assert x == JoinRow(l, r, left, right, on);
    assert r in m;
    JoinRowCells(l, r, left, right, on, marker);
  }

  /** Right keys that are unique: each left row then gives one output row,
      so the join loses and repeats nothing; the matched rows number the
      matched left rows and the unmatched rows the unmatched ones. */
  lemma UniqueRightKeys(left: Table, right: Table, on: string, marker: string)
    requires Mergeable(left, right, on) && KeyNotSuffixed(on) && MarkedRight(left, right, on, marker)
    requires forall i, j :: 0 <= i < j < |right.rows| ==> Get(right.rows[i], on) != Get(right.rows[j], on)
    ensures |FlatMap(left.rows, Joined(left, right, on))| == |left.rows|
    ensures |Filter(FlatMap(left.rows, Joined(left, right, on)), MarkerPresent(marker))| == |Filter(left.rows, IsMatched(right, on))|
    ensures |Filter(FlatMap(left.rows, Joined(left, right, on)), MarkerMissing(marker))| == |Filter(left.rows, Unmatched(right, on))|
  {
    forall l | l in left.rows ensures |Matches(l, right, on)| <= 1 {
      UniqueKeyMatches(right.rows, on, Get(l, on));
    }
    var all := (l: Row) => true;
    FlatMapCount(left.rows, Joined(left, right, on), all);
    FilterAll(left.rows, all);
    MatchedRows(left, right, on, marker);
    FlatMapCount(left.rows, JoinedMatches(left, right, on), IsMatched(right, on));
    UnmatchedRows(left, right, on, marker);
  }

  lemma {:induction false} UniqueKeyMatches(s: seq<Row>, on: string, k: Cell)
    requires forall i, j :: 0 <= i < j < |s| ==> Get(s[i], on) != Get(s[j], on)
    ensures |Filter(s, SameKey(on, k))| <= 1
  {
    if s != [] {
      UniqueKeyMatches(s[1..], on, k);
      if Get(s[0], on) == k {
        forall x | x in s[1..] ensures !SameKey(on, k)(x) {
          var j :| 0 <= j < |s[1..]| && s[1..][j] == x;
          assert s[j + 1] == x;
        }
        FilterNone(s[1..], SameKey(on, k));
      }
    }
  }
}
