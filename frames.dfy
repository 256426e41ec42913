/** Data frames as the pipeline sees them: a set of column names and a
    sequence of rows, each row a map from column name to cell. A key missing
    from a row reads as null, the way pandas fills the cells of a column a
    record does not have. Column order is not modelled. */
module Frames {
  import opened Options
  import opened Seqs
  import opened Text

  /** The spatial references points arrive in. */
  datatype Crs = Wgs84 | UtmNad83

  /** EPSG code of each source reference. */
  function Epsg(c: Crs): nat
  {
    match c
    case Wgs84 => 4326
    case UtmNad83 => 26912
  }

  /** EPSG code of the reference every point is projected to. */
  const WebMercator: nat := 3857

  /** The geometry column of a spatially enabled frame. */
  const ShapeColumn := "SHAPE"

  /** A point built from `(x, y)` in the reference `source` and projected to
      the reference with EPSG code `target`; the projection arithmetic itself
      is left abstract. */
  datatype Geometry = Point(source: Crs, target: nat, x: real, y: real)

  /** One cell of a frame; `Null` stands for `None`, NaN and NaT alike. */
  datatype Cell =
    | Null
    | Str(s: string)
    | Int(i: int)
    | Real(r: real)
    | Bool(b: bool)
    | Time(t: int)
    | Shape(g: Geometry)

  type Row = map<string, Cell>

  datatype Table = Table(columns: set<string>, rows: seq<Row>)

  /** `pd.DataFrame()`: no columns, no rows. */
  const EmptyTable := Table({}, [])

  /** What the source reports when a stage raises instead of finishing. */
  datatype Failure =
    | MissingColumn(name: string)       // KeyError on a column or dict key
    | NotAnInteger(text: string)        // int() / astype(int) on text that is no integer
    | NotATime(text: string)            // pd.to_datetime on text it cannot parse
    | NotANumber                        // comparing or locating a non-numeric coordinate
    | NoObjectsToConcatenate            // pd.concat([])
    | NoHeaderRow                       // iloc[0] on a frame without rows
    | RequestFailed(offset: int)        // a GraphQL request that raised
    | DuplicateColumns                  // a merge whose suffixes would repeat a column name

  datatype Outcome = Pass | Fail(error: Failure)

  datatype Result<T> = Ok(value: T) | Err(error: Failure)

  function Get(r: Row, c: string): Cell
  {
    if c in r then r[c] else Null
  }

  /** The first column of `cols` that `t` lacks: the KeyError `df[cols]` raises. */
  function FirstMissing(cols: seq<string>, have: set<string>): (r: Option<string>)
    ensures r.None? <==> forall c :: c in cols ==> c in have
    ensures r.Some? ==> r.value in cols && r.value !in have
  {
    if cols == [] then None
    else if cols[0] !in have then Some(cols[0])
    else FirstMissing(cols[1..], have)
  }

  /** The row restricted to `cols`, a null cell for each column it lacks. */
  function Restrict(r: Row, cols: set<string>): (u: Row)
    ensures u.Keys == cols
    ensures forall c :: c in cols ==> Get(u, c) == Get(r, c)
  {
    map c | c in cols :: Get(r, c)
  }

  /** `df[cols]` and `df.reindex(columns=cols)` once every column exists:
      the same rows, holding only the listed columns. */
  function Project(t: Table, cols: set<string>): (u: Table)
    ensures u.columns == cols && |u.rows| == |t.rows|
    ensures forall i, c :: 0 <= i < |t.rows| && c in cols ==> Get(u.rows[i], c) == Get(t.rows[i], c)
  {
    Table(cols, Map(t.rows, (r: Row) => Restrict(r, cols)))
  }

  /** `df[cols]` for the column list `cols`, failing on the first absent one. */
  function Select(t: Table, cols: seq<string>): (r: Result<Table>)
    ensures r.Ok? <==> forall c :: c in cols ==> c in t.columns
    ensures r.Ok? ==> r.value == Project(t, set c | c in cols)
    ensures r.Err? ==> r.error.MissingColumn? && r.error.name in cols && r.error.name !in t.columns
  {
    match FirstMissing(cols, t.columns)
    case Some(c) => Err(MissingColumn(c))
    case None => Ok(Project(t, set c | c in cols))
  }

  function RenameKey(r: Row, from: string, to: string): Row
  {
    (r - {from})[to := Get(r, from)]
  }

  /** `df.rename(columns={from: to})`: a column that is absent is left alone. */
  function RenameColumn(t: Table, from: string, to: string): (u: Table)
    ensures |u.rows| == |t.rows|
    ensures from !in t.columns ==> u == t
    ensures from in t.columns ==> u.columns == t.columns - {from} + {to}
    ensures from in t.columns && from != to ==> forall i :: 0 <= i < |t.rows| ==>
      Get(u.rows[i], to) == Get(t.rows[i], from) && Get(u.rows[i], from) == Null &&
      forall c :: c != from && c != to ==> Get(u.rows[i], c) == Get(t.rows[i], c)
  {
    if from !in t.columns then t
    else Table(t.columns - {from} + {to}, Map(t.rows, (r: Row) => RenameKey(r, from, to)))
  }

  /** Every column name that occurs in some row: the columns `pd.DataFrame(records)` gets. */
  function ColumnsOf(rows: seq<Row>): (cols: set<string>)
    ensures forall i, c :: 0 <= i < |rows| && c in rows[i] ==> c in cols
    ensures forall c :: c in cols ==> exists i :: 0 <= i < |rows| && c in rows[i]
  {
    if rows == [] then {}
    else
      var rest := ColumnsOf(rows[1..]);
      assert forall i, c :: 1 <= i < |rows| && c in rows[i] ==> c in rest by {
        forall i, c | 1 <= i < |rows| && c in rows[i] ensures c in rest {
          assert rows[i] == rows[1..][i - 1];
        }
      }
      assert forall c :: c in rest ==> exists i :: 0 <= i < |rows| && c in rows[i] by {
        forall c | c in rest ensures exists i :: 0 <= i < |rows| && c in rows[i] {
          var k :| 0 <= k < |rows[1..]| && c in rows[1..][k];
          assert c in rows[k + 1];
        }
      }
      rows[0].Keys + rest
  }

  /** `pd.concat([a, b])`: the rows of `a` then those of `b`; each row lacks the
      columns only the other frame has, and those read as null. */
  function Concat(a: Table, b: Table): (u: Table)
    ensures forall c :: c in u.columns <==> c in a.columns || c in b.columns
    ensures |u.rows| == |a.rows| + |b.rows|
    ensures forall i :: 0 <= i < |a.rows| ==> u.rows[i] == a.rows[i]
    ensures forall j :: 0 <= j < |b.rows| ==> u.rows[|a.rows| + j] == b.rows[j]
  {
    Table(a.columns + b.columns, a.rows + b.rows)
  }

  /** Concatenation deduplicates nothing, not even across the two frames:
      every key occurs in the result as often as in both inputs together. */
  lemma ConcatOccurrences<K>(a: Table, b: Table, key: Row -> K, k: K)
    ensures Occurrences(Concat(a, b).rows, key, k) == Occurrences(a.rows, key, k) + Occurrences(b.rows, key, k)
  {
    assert Concat(a, b).rows == a.rows + b.rows;
    OccurrencesAppend(a.rows, b.rows, key, k);
  }

  function BlankToNull(c: Cell): Cell
  {
    if c == Str("") then Null else c
  }

  function ReplaceBlanksInRow(r: Row): Row
  {
    map c | c in r :: BlankToNull(r[c])
  }

  /** `df.replace("", np.nan)`: every empty-text cell becomes null, every other cell stays. */
  function ReplaceBlanks(t: Table): (u: Table)
    ensures u.columns == t.columns && |u.rows| == |t.rows|
    ensures forall i, c :: 0 <= i < |t.rows| ==>
      Get(u.rows[i], c) != Str("") &&
      (Get(t.rows[i], c) != Str("") ==> Get(u.rows[i], c) == Get(t.rows[i], c))
    ensures forall i, c :: 0 <= i < |t.rows| && Get(t.rows[i], c) == Str("") ==> Get(u.rows[i], c) == Null
  {
    Table(t.columns, Map(t.rows, ReplaceBlanksInRow))
  }

  /** `str(x)` of one cell, as `astype(str)` writes it. A float is written as
      its integer part and ".0", which agrees with Python on the first five
      characters below 1e16; a timestamp or geometry is no number and is
      written as a word. */
  function Render(c: Cell): string
  {
    match c
    case Null => "None"
    case Str(s) => s
    case Int(i) => Decimal(i)
    case Real(x) =>
      var whole := if x >= 0.0 then x.Floor else -((-x).Floor);
      (if x < 0.0 && whole == 0 then "-" else "") + Decimal(whole) + ".0"
    case Bool(b) => if b then "True" else "False"
    case Time(_) => "Timestamp"
    case Shape(_) => "POINT"
  }

  /** `df[to] = f(df[from])`: column `to` of every row becomes `f` of its
      column `from`; the first cell `f` refuses makes the whole assignment fail. */
  function ConvertColumn(rows: seq<Row>, from: string, to: string, f: Cell -> Result<Cell>): (r: Result<seq<Row>>)
    ensures r.Ok? <==> forall i :: 0 <= i < |rows| ==> f(Get(rows[i], from)).Ok?
    ensures r.Ok? ==> |r.value| == |rows|
    ensures r.Ok? ==> forall i :: 0 <= i < |rows| ==> r.value[i] == rows[i][to := f(Get(rows[i], from)).value]
    ensures r.Err? ==> exists i :: 0 <= i < |rows| && f(Get(rows[i], from)) == Err(r.error)
  {
    if rows == [] then Ok([])
    else
      match f(Get(rows[0], from))
      case Err(e) => Err(e)
      case Ok(v) =>
        match ConvertColumn(rows[1..], from, to, f)
        case Err(e) =>
          assert forall i :: 1 <= i < |rows| ==> rows[i] == rows[1..][i - 1];
          Err(e)
        case Ok(rest) =>
          assert forall i :: 1 <= i < |rows| ==> rows[i] == rows[1..][i - 1];
          Ok([rows[0][to := v]] + rest)
  }

  /** A cell of a column cast in place after a projection: the cast cell in
      the cast column, the original cell in every other kept column. */
  lemma ConvertedProjectedCell(t: Table, cols: set<string>, key: string, f: Cell -> Result<Cell>, i: int, c: string)
    requires ConvertColumn(Project(t, cols).rows, key, key, f).Ok?
    requires 0 <= i < |t.rows| && c in cols && key in cols
    ensures Get(ConvertColumn(Project(t, cols).rows, key, key, f).value[i], c) ==
      if c == key then f(Get(t.rows[i], key)).value else Get(t.rows[i], c)
  {
    var row := Project(t, cols).rows[i];
    assert Get(row, c) == Get(t.rows[i], c) && Get(row, key) == Get(t.rows[i], key);
  }

  /** `df[col] = v`: every row holds `v` in `col` and keeps its other cells. */
  function SetColumn(t: Table, col: string, v: Cell): (u: Table)
    ensures u.columns == t.columns + {col} && |u.rows| == |t.rows|
    ensures forall i :: 0 <= i < |t.rows| ==> Get(u.rows[i], col) == v
    ensures forall i, c :: 0 <= i < |t.rows| && c != col ==> Get(u.rows[i], c) == Get(t.rows[i], c)
  {
    Table(t.columns + {col}, Map(t.rows, (r: Row) => r[col := v]))
  }

  function Present(col: string): Row -> bool
  {
    (r: Row) => Get(r, col) != Null
  }

  /** `df.dropna(subset=[col])`: the rows holding a value in `col`, in order;
      a column the frame lacks raises. */
  function DropNulls(t: Table, col: string): (r: Result<Table>)
    ensures r.Ok? <==> col in t.columns
    ensures r.Err? ==> r.error == MissingColumn(col)
    ensures r.Ok? ==> r.value.columns == t.columns
    ensures r.Ok? ==> forall x :: x in r.value.rows <==> x in t.rows && Get(x, col) != Null
    ensures r.Ok? ==> r.value.rows == Filter(t.rows, Present(col))
  {
    if col in t.columns then Ok(Table(t.columns, Filter(t.rows, Present(col))))
    else Err(MissingColumn(col))
  }

  function Absent(col: string): Row -> bool
  {
    (r: Row) => Get(r, col) == Null
  }

  /** Dropping nulls loses only the rows without a value: the kept rows and
      the null rows make up the frame, copy for copy. */
  lemma DropNullsAccounting(t: Table, col: string)
    requires col in t.columns
    ensures multiset(DropNulls(t, col).value.rows) + multiset(Filter(t.rows, Absent(col))) == multiset(t.rows)
    ensures |DropNulls(t, col).value.rows| + |Filter(t.rows, Absent(col))| == |t.rows|
  {
    FilterSplit(t.rows, Present(col), Absent(col));
  }

  /** `df[a] = f(df[a])` followed by `df[b] = g(df[b])` on another column. */
  function ConvertTwo(rows: seq<Row>, a: string, f: Cell -> Result<Cell>, b: string, g: Cell -> Result<Cell>): (r: Result<seq<Row>>)
    requires a != b
    ensures r.Ok? <==> forall i :: 0 <= i < |rows| ==> f(Get(rows[i], a)).Ok? && g(Get(rows[i], b)).Ok?
    ensures r.Ok? ==> |r.value| == |rows|
    ensures r.Ok? ==> forall i :: 0 <= i < |rows| ==>
      r.value[i] == rows[i][a := f(Get(rows[i], a)).value][b := g(Get(rows[i], b)).value]
    ensures r.Err? ==> exists i :: 0 <= i < |rows| && (f(Get(rows[i], a)) == Err(r.error) || g(Get(rows[i], b)) == Err(r.error))
  {
    match ConvertColumn(rows, a, a, f)
    case Err(e) => Err(e)
    case Ok(first) =>
      assert forall i :: 0 <= i < |rows| ==> Get(first[i], b) == Get(rows[i], b);
      ConvertColumn(first, b, b, g)
  }

  /** `df.drop(columns=cols)`: the listed columns removed, every other cell
      kept; the first listed column the frame lacks raises. */
  function DropColumns(t: Table, cols: seq<string>): (r: Result<Table>)
    ensures r.Ok? <==> forall c :: c in cols ==> c in t.columns
    ensures r.Err? ==> r.error.MissingColumn? && r.error.name in cols && r.error.name !in t.columns
    ensures r.Ok? ==> r.value.columns == t.columns - (set c | c in cols) && |r.value.rows| == |t.rows|
    ensures r.Ok? ==> forall i, c :: 0 <= i < |t.rows| && c !in cols ==> Get(r.value.rows[i], c) == Get(t.rows[i], c)
    ensures r.Ok? ==> forall i, c :: 0 <= i < |t.rows| && c in cols ==> Get(r.value.rows[i], c) == Null
  {
    match FirstMissing(cols, t.columns)
    case Some(c) => Err(MissingColumn(c))
    case None =>
      var gone := set c | c in cols;
      Ok(Table(t.columns - gone, Map(t.rows, (r: Row) => r - gone)))
  }
}
