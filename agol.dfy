/** The final systems frame made ready for ArcGIS Online: every column but
    SHAPE renamed to its AGOL-safe name in lower case, then the area and
    length columns of the service-area geometry dropped. */
module Agol {
  import opened Seqs
  import opened Text
  import opened Frames

  const AreaColumn := "shape__area"
  const LengthColumn := "shape__length"
  const DroppedColumns: seq<string> := [AreaColumn, LengthColumn]

  /** The new name of column `c`: `agolName`, the shared library's AGOL-safe
      renaming, lower-cased; SHAPE keeps its name. */
  function AgolName(agolName: string -> string, c: string): string
  {
    if c == ShapeColumn then c else Lower(agolName(c))
  }

  /** No two columns of the frame receive the same new name. */
  predicate DistinctNames(agolName: string -> string, cols: set<string>)
  {
    forall a, b :: a in cols && b in cols && a != b ==> AgolName(agolName, a) != AgolName(agolName, b)
  }

  /** A lower-cased name is never SHAPE, so no renamed column can take the
      geometry column's place. */
  lemma ShapeNameKept(agolName: string -> string, c: string)
    requires c != ShapeColumn
    ensures AgolName(agolName, c) != ShapeColumn
  {
    var n := AgolName(agolName, c);
    if |n| == |ShapeColumn| {
      assert !IsUpper(n[0]);
      assert IsUpper(ShapeColumn[0]);
    }
  }

  function RenameRow(r: Row, cols: set<string>, agolName: string -> string): (u: Row)
    requires DistinctNames(agolName, cols)
    ensures forall c :: c in cols ==> AgolName(agolName, c) in u && u[AgolName(agolName, c)] == Get(r, c)
    ensures forall k :: k in u ==> exists c :: c in cols && AgolName(agolName, c) == k
  {
    map c | c in cols :: AgolName(agolName, c) := Get(r, c)
  }

  /** `final.rename(columns={c: agolName(c).lower() for every c but SHAPE})`;
      the mapping is built first and popping SHAPE from it raises when the
      frame has no SHAPE column. */
  function RenameForAgol(t: Table, agolName: string -> string): (r: Result<Table>)
    requires DistinctNames(agolName, t.columns)
    ensures r.Ok? <==> ShapeColumn in t.columns
    ensures r.Err? ==> r.error == MissingColumn(ShapeColumn)
    ensures r.Ok? ==> r.value.columns == set c | c in t.columns :: AgolName(agolName, c)
    ensures r.Ok? ==> |r.value.rows| == |t.rows|
    ensures r.Ok? ==> forall i, c :: 0 <= i < |t.rows| && c in t.columns ==>
      Get(r.value.rows[i], AgolName(agolName, c)) == Get(t.rows[i], c)
  {
    if ShapeColumn !in t.columns then Err(MissingColumn(ShapeColumn))
    else
      Ok(Table(set c | c in t.columns :: AgolName(agolName, c),
               Map(t.rows, (r: Row) => RenameRow(r, t.columns, agolName))))
  }

  /** What the cleaning publishes: the renamed frame without the area and
      length columns. */
  function AgolTable(t: Table, agolName: string -> string): Result<Table>
    requires DistinctNames(agolName, t.columns)
  {
    match RenameForAgol(t, agolName)
    case Err(e) => Err(e)
    case Ok(renamed) => DropColumns(renamed, DroppedColumns)
  }

  /** The published frame keeps SHAPE and every row; each other column is
      lower case and holds the cells of the column it was renamed from; the
      area and length columns are gone. */
  lemma AgolColumns(t: Table, agolName: string -> string)
    requires DistinctNames(agolName, t.columns)
    requires AgolTable(t, agolName).Ok?
    ensures ShapeColumn in AgolTable(t, agolName).value.columns
    ensures AreaColumn !in AgolTable(t, agolName).value.columns && LengthColumn !in AgolTable(t, agolName).value.columns
    ensures forall c :: c in AgolTable(t, agolName).value.columns && c != ShapeColumn ==>
      forall k :: 0 <= k < |c| ==> !IsUpper(c[k])
    ensures forall c :: c in AgolTable(t, agolName).value.columns <==>
      c !in DroppedColumns && exists d :: d in t.columns && AgolName(agolName, d) == c
    ensures |AgolTable(t, agolName).value.rows| == |t.rows|
    ensures forall i, d :: 0 <= i < |t.rows| && d in t.columns && AgolName(agolName, d) !in DroppedColumns ==>
      Get(AgolTable(t, agolName).value.rows[i], AgolName(agolName, d)) == Get(t.rows[i], d)
  {
    var renamed := RenameForAgol(t, agolName).value;
    assert ShapeColumn in renamed.columns by {
      assert AgolName(agolName, ShapeColumn) == ShapeColumn;
    }
  }
}
