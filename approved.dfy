/** The approved-systems sheet: rows without an id are dropped, ids holding no
    digit are reported and excluded, the others are normalised to integers,
    the submission times parsed, and of each PWSID only the most recent
    approval kept. */
module Approved {
  import opened Options
  import opened Seqs
  import opened Text
  import opened Frames
  import opened Pwsid
  import opened Recency

  const PwsIdColumn := "PWS ID"
  const TimeColumn := "Time"
  const SystemNameColumn := "System Name"
  const ApprovedColumn := "Approved"
  const SizeColumn := "SC, LC, on NTNC"
  const AreaTypeColumn := "area_type"
  const ApprovedSystem := "Approved System"

  /** The sheet columns the cleaning keeps, in the order it selects them. */
  const SheetColumns: seq<string> := [PwsIdColumn, TimeColumn, SystemNameColumn, ApprovedColumn, SizeColumn]

  /** The columns that pass through the cleaning untouched. */
  const CarriedColumns: set<string> := {SystemNameColumn, ApprovedColumn, SizeColumn}

  const CleanedColumns: set<string> := {PwsidColumn, SubmittedTime, AreaTypeColumn} + CarriedColumns

  /** `astype(str)` of one cell. */
  const AsText: Cell -> Result<Cell> := (c: Cell) => Ok(Str(Render(c)))

  function IdText(r: Row): string
  {
    Render(Get(r, PwsIdColumn))
  }

  /** The mask `str.match(r"^[^\d]*$")` on the id column. */
  const InvalidId: Row -> bool := (r: Row) => NoDigit(IdText(r))

  const ValidId: Row -> bool := (r: Row) => HasDigit(IdText(r))

  /** `pd.to_datetime(..., format="mixed")` on one cell, with the text parser
      `parseTime` standing for pandas' own: a null stays null (NaT), a
      timestamp stays, other text parses or the whole conversion raises. */
  function TimeCell(parseTime: string -> Option<int>): Cell -> Result<Cell>
  {
    (c: Cell) =>
      if c.Null? || c.Time? then Ok(c)
      else if parseTime(Render(c)).Some? then Ok(Time(parseTime(Render(c)).value))
      else Err(NotATime(Render(c)))
  }

  /** `systems.dropna(subset=["PWS ID"])[SheetColumns]` with the id column cast
      to text: the rows holding an id, in order, each with its id as text. */
  function ApprovedText(systems: Table): (r: Result<seq<Row>>)
    ensures r.Ok? <==> forall c :: c in SheetColumns ==> c in systems.columns
    ensures r.Err? ==> r.error.MissingColumn? && r.error.name in SheetColumns && r.error.name !in systems.columns
    ensures r.Ok? ==> |r.value| == |Filter(systems.rows, Present(PwsIdColumn))|
  {
    match DropNulls(systems, PwsIdColumn)
    case Err(e) => Err(e)
    case Ok(present) =>
      match Select(present, SheetColumns)
      case Err(e) => Err(e)
      case Ok(selected) => ConvertColumn(selected.rows, PwsIdColumn, PwsIdColumn, AsText)
  }

  /** Each kept row is a sheet row with an id, in order: its id as text, its
      time and its carried cells as they were. */
  lemma ApprovedTextCells(systems: Table)
    requires ApprovedText(systems).Ok?
    ensures forall i :: 0 <= i < |ApprovedText(systems).value| ==>
      Get(ApprovedText(systems).value[i], PwsIdColumn) == Str(IdText(Filter(systems.rows, Present(PwsIdColumn))[i])) &&
      Get(ApprovedText(systems).value[i], TimeColumn) == Get(Filter(systems.rows, Present(PwsIdColumn))[i], TimeColumn) &&
      forall c :: c in CarriedColumns ==> Get(ApprovedText(systems).value[i], c) == Get(Filter(systems.rows, Present(PwsIdColumn))[i], c)
  {
    forall i | 0 <= i < |ApprovedText(systems).value|
      ensures Get(ApprovedText(systems).value[i], PwsIdColumn) == Str(IdText(Filter(systems.rows, Present(PwsIdColumn))[i])) &&
        Get(ApprovedText(systems).value[i], TimeColumn) == Get(Filter(systems.rows, Present(PwsIdColumn))[i], TimeColumn) &&
        forall c :: c in CarriedColumns ==> Get(ApprovedText(systems).value[i], c) == Get(Filter(systems.rows, Present(PwsIdColumn))[i], c)
    {
      ApprovedTextCellAt(systems, i);
    }
  }

  lemma ApprovedTextCellAt(systems: Table, i: int)
    requires ApprovedText(systems).Ok? && 0 <= i < |ApprovedText(systems).value|
    ensures Get(ApprovedText(systems).value[i], PwsIdColumn) == Str(IdText(Filter(systems.rows, Present(PwsIdColumn))[i]))
    ensures Get(ApprovedText(systems).value[i], TimeColumn) == Get(Filter(systems.rows, Present(PwsIdColumn))[i], TimeColumn)
    ensures forall c :: c in CarriedColumns ==> Get(ApprovedText(systems).value[i], c) == Get(Filter(systems.rows, Present(PwsIdColumn))[i], c)
  {
    var present := Table(systems.columns, Filter(systems.rows, Present(PwsIdColumn)));
    var cols := set c | c in SheetColumns;
    ApprovedTextSteps(systems);
    SheetColumnsCover();
    CarriedDistinct();
    ConvertedProjectedCell(present, cols, PwsIdColumn, AsText, i, PwsIdColumn);
    ConvertedProjectedCell(present, cols, PwsIdColumn, AsText, i, TimeColumn);
    forall c | c in CarriedColumns
      ensures Get(ApprovedText(systems).value[i], c) == Get(present.rows[i], c)
    {
      ConvertedProjectedCell(present, cols, PwsIdColumn, AsText, i, c);
    }
  }

  /** The selection as one expression: the rows holding an id, restricted to
      the sheet columns, the id cast to text. */
  lemma ApprovedTextSteps(systems: Table)
    requires ApprovedText(systems).Ok?
    ensures ApprovedText(systems) == ConvertColumn(
      Project(Table(systems.columns, Filter(systems.rows, Present(PwsIdColumn))), set c | c in SheetColumns).rows,
      PwsIdColumn, PwsIdColumn, AsText)
  {
    var present := DropNulls(systems, PwsIdColumn).value;
    assert present == Table(systems.columns, Filter(systems.rows, Present(PwsIdColumn)));
  }

  lemma SheetColumnsCover()
    ensures PwsIdColumn in (set c | c in SheetColumns) && TimeColumn in (set c | c in SheetColumns)
    ensures CarriedColumns <= (set c | c in SheetColumns)
  {
  }

  /** The ids the cleaning reports as invalid, as text, in order. */
  function InvalidIds(rows: seq<Row>): (ids: seq<string>)
    ensures forall s :: s in ids ==> NoDigit(s)
    ensures |ids| == |Filter(rows, InvalidId)|
  {
    var ids := Map(Filter(rows, InvalidId), IdText);
    assert forall s :: s in ids ==> NoDigit(s) by {
      forall s | s in ids ensures NoDigit(s) {
        var i :| 0 <= i < |ids| && ids[i] == s;
        assert Filter(rows, InvalidId)[i] in Filter(rows, InvalidId);
      }
    }
    ids
  }

  /** The rows kept for conversion: all of them when no id is invalid, the
      rows whose id has a digit otherwise; either way exactly the latter. */
  function ValidRows(rows: seq<Row>): (r: seq<Row>)
    ensures r == Filter(rows, ValidId)
  {
    if InvalidIds(rows) == [] then
      assert Filter(rows, InvalidId) == [];
      FilterAll(rows, ValidId);
      rows
    else Filter(rows, ValidId)
  }

  /** The valid rows with the id normalised to an integer and the time
      parsed; the first id or time that does not convert makes the whole
      stage fail. */
  function ConvertedRows(valid: seq<Row>, parseTime: string -> Option<int>): (r: Result<seq<Row>>)
    ensures r.Ok? <==> forall i :: 0 <= i < |valid| ==>
      NormalizeCell(SheetStrip)(Get(valid[i], PwsIdColumn)).Ok? && TimeCell(parseTime)(Get(valid[i], TimeColumn)).Ok?
    ensures r.Err? ==> r.error.NotAnInteger? || r.error.NotATime?
    ensures r.Ok? ==> |r.value| == |valid|
  {
    assert forall c :: NormalizeCell(SheetStrip)(c).Err? ==> NormalizeCell(SheetStrip)(c).error.NotAnInteger? by {
      forall c ensures NormalizeCell(SheetStrip)(c).Err? ==> NormalizeCell(SheetStrip)(c).error.NotAnInteger? {
        NormalizeCellError(SheetStrip, c);
      }
    }
    assert forall c :: TimeCell(parseTime)(c).Err? ==> TimeCell(parseTime)(c).error.NotATime?;
    ConvertTwo(valid, PwsIdColumn, NormalizeCell(SheetStrip), TimeColumn, TimeCell(parseTime))
  }

  /** A converted row holds the normalised id, the parsed time and the
      valid row's carried cells. */
  lemma ConvertedCells(valid: seq<Row>, parseTime: string -> Option<int>)
    requires ConvertedRows(valid, parseTime).Ok?
    ensures forall i :: 0 <= i < |valid| ==>
      Get(ConvertedRows(valid, parseTime).value[i], PwsIdColumn) == NormalizeCell(SheetStrip)(Get(valid[i], PwsIdColumn)).value
    ensures forall i :: 0 <= i < |valid| ==>
      Get(ConvertedRows(valid, parseTime).value[i], TimeColumn) == TimeCell(parseTime)(Get(valid[i], TimeColumn)).value
    ensures forall i, c :: 0 <= i < |valid| && c in CarriedColumns ==>
      Get(ConvertedRows(valid, parseTime).value[i], c) == Get(valid[i], c)
  {
    forall i | 0 <= i < |valid|
      ensures Get(ConvertedRows(valid, parseTime).value[i], PwsIdColumn) == NormalizeCell(SheetStrip)(Get(valid[i], PwsIdColumn)).value
      ensures Get(ConvertedRows(valid, parseTime).value[i], TimeColumn) == TimeCell(parseTime)(Get(valid[i], TimeColumn)).value
      ensures forall c :: c in CarriedColumns ==> Get(ConvertedRows(valid, parseTime).value[i], c) == Get(valid[i], c)
    {
      ConvertedCellAt(valid, parseTime, i);
    }
  }

  /** One converted row: the row of the valid rows with its id and time
      replaced by their conversions. */
  lemma ConvertedCellAt(valid: seq<Row>, parseTime: string -> Option<int>, i: int)
    requires ConvertedRows(valid, parseTime).Ok? && 0 <= i < |valid|
    ensures Get(ConvertedRows(valid, parseTime).value[i], PwsIdColumn) == NormalizeCell(SheetStrip)(Get(valid[i], PwsIdColumn)).value
    ensures Get(ConvertedRows(valid, parseTime).value[i], TimeColumn) == TimeCell(parseTime)(Get(valid[i], TimeColumn)).value
    ensures forall c :: c in CarriedColumns ==> Get(ConvertedRows(valid, parseTime).value[i], c) == Get(valid[i], c)
  {
    CarriedDistinct();
    var id := NormalizeCell(SheetStrip)(Get(valid[i], PwsIdColumn)).value;
    var time := TimeCell(parseTime)(Get(valid[i], TimeColumn)).value;
    var conv := ConvertTwo(valid, PwsIdColumn, NormalizeCell(SheetStrip), TimeColumn, TimeCell(parseTime));
    assert ConvertedRows(valid, parseTime) == conv;
    assert conv.value[i] == valid[i][PwsIdColumn := id][TimeColumn := time];
  }

  lemma CarriedDistinct()
    ensures forall c :: c in CarriedColumns ==>
      c != PwsIdColumn && c != TimeColumn && c != PwsidColumn && c != SubmittedTime && c != AreaTypeColumn
  {
  }

  /** The converted rows under their new names, `PWSID` and
      `submitted_time`, with the area type "Approved System" added. */
  function Relabel(rows: seq<Row>): (t: Table)
    ensures t.columns == CleanedColumns && |t.rows| == |rows|
    ensures forall i :: 0 <= i < |rows| ==>
      Get(t.rows[i], PwsidColumn) == Get(rows[i], PwsIdColumn) &&
      Get(t.rows[i], SubmittedTime) == Get(rows[i], TimeColumn) &&
      Get(t.rows[i], AreaTypeColumn) == Str(ApprovedSystem) &&
      forall c :: c in CarriedColumns ==> Get(t.rows[i], c) == Get(rows[i], c)
  {
    CarriedDistinct();
    SheetColumnsCover();
    RelabelledColumns();
    var selected := Table((set c | c in SheetColumns), rows);
    var renamed := RenameColumn(RenameColumn(selected, PwsIdColumn, PwsidColumn), TimeColumn, SubmittedTime);
    SetColumn(renamed, AreaTypeColumn, Str(ApprovedSystem))
  }

  lemma RelabelledColumns()
    ensures (set c | c in SheetColumns) - {PwsIdColumn} + {PwsidColumn} - {TimeColumn} + {SubmittedTime} + {AreaTypeColumn} == CleanedColumns
  {
  }

  function ApprovedRows(valid: seq<Row>, parseTime: string -> Option<int>): Result<Table>
  {
    match ConvertedRows(valid, parseTime)
    case Err(e) => Err(e)
    case Ok(rows) => Ok(Relabel(rows))
  }

  /** A candidate row holds the normalised id, the parsed time, the area
      type and the carried cells of the valid row it comes from. */
  lemma ApprovedCells(valid: seq<Row>, parseTime: string -> Option<int>)
    requires ApprovedRows(valid, parseTime).Ok?
    ensures |ApprovedRows(valid, parseTime).value.rows| == |valid|
    ensures forall i :: 0 <= i < |valid| ==>
      Get(ApprovedRows(valid, parseTime).value.rows[i], PwsidColumn) == NormalizeCell(SheetStrip)(Get(valid[i], PwsIdColumn)).value
    ensures forall i :: 0 <= i < |valid| ==>
      Get(ApprovedRows(valid, parseTime).value.rows[i], SubmittedTime) == TimeCell(parseTime)(Get(valid[i], TimeColumn)).value
    ensures forall i :: 0 <= i < |valid| ==>
      Get(ApprovedRows(valid, parseTime).value.rows[i], AreaTypeColumn) == Str(ApprovedSystem)
    ensures forall i, c :: 0 <= i < |valid| && c in CarriedColumns ==>
      Get(ApprovedRows(valid, parseTime).value.rows[i], c) == Get(valid[i], c)
  {
    ConvertedCells(valid, parseTime);
  }

  /** Every approval with a valid id, converted, before the deduplication. */
  function Candidates(systems: Table, parseTime: string -> Option<int>): Result<Table>
  {
    match ApprovedText(systems)
    case Err(e) => Err(e)
    case Ok(rows) => ApprovedRows(ValidRows(rows), parseTime)
  }

  /** What the cleaning leaves: the invalid ids (reported only when the
      selection succeeded) and the cleaned frame or the failure. */
  datatype Approval = Approval(invalid: seq<string>, cleaned: Result<Table>)

  function ApproveSystems(systems: Table, parseTime: string -> Option<int>): (a: Approval)
    ensures ApprovedText(systems).Err? ==> a == Approval([], Err(ApprovedText(systems).error))
    ensures a.cleaned.Ok? <==> Candidates(systems, parseTime).Ok?
    ensures a.cleaned.Ok? ==> a.cleaned.value.columns == CleanedColumns
  {
    match ApprovedText(systems)
    case Err(e) => Approval([], Err(e))
    case Ok(rows) =>
      match Candidates(systems, parseTime)
      case Err(e) => Approval(InvalidIds(rows), Err(e))
      case Ok(t) => Approval(InvalidIds(rows), Ok(Table(t.columns, LatestPerId(t.rows))))
  }

  /** The cleaning step by step, once the selection succeeded. */
  lemma ApproveSystemsSteps(systems: Table, parseTime: string -> Option<int>)
    requires ApprovedText(systems).Ok?
    ensures ApproveSystems(systems, parseTime).invalid == InvalidIds(ApprovedText(systems).value)
    ensures ApproveSystems(systems, parseTime).cleaned ==
      match ConvertedRows(ValidRows(ApprovedText(systems).value), parseTime)
      case Err(e) => Err(e)
      case Ok(rows) => Ok(Table(Relabel(rows).columns, LatestPerId(Relabel(rows).rows)))
  {
  }

  /** The report lists, in sheet order, the id text of exactly the rows that
      hold an id without a digit. */
  lemma InvalidIdsListed(systems: Table, parseTime: string -> Option<int>)
    requires ApprovedText(systems).Ok?
    ensures ApproveSystems(systems, parseTime).invalid ==
      Map(Filter(Filter(systems.rows, Present(PwsIdColumn)), InvalidId), IdText)
  {
    var rows := ApprovedText(systems).value;
    var present := Filter(systems.rows, Present(PwsIdColumn));
    ApprovedTextCells(systems);
    forall i | 0 <= i < |rows| ensures InvalidId(rows[i]) == InvalidId(present[i]) && IdText(rows[i]) == IdText(present[i]) {
      assert Get(rows[i], PwsIdColumn) == Str(IdText(present[i]));
    }
    FilterMapAligned(rows, present, InvalidId, InvalidId, IdText, IdText);
  }

  /** Nothing is lost: every row holding an id is either reported or becomes
      a candidate. */
  lemma ApprovedAccounting(systems: Table, parseTime: string -> Option<int>)
    requires Candidates(systems, parseTime).Ok?
    ensures |ApproveSystems(systems, parseTime).invalid| + |Candidates(systems, parseTime).value.rows| ==
      |Filter(systems.rows, Present(PwsIdColumn))|
  {
    var rows := ApprovedText(systems).value;
    FilterSplit(rows, ValidId, InvalidId);
  }

  /** The sheet row a candidate comes from holds an id with a digit: the
      candidate's PWSID is that id normalised, its area type "Approved
      System", and its carried cells are the row's. */
  predicate Origin(y: Row, x: Row)
  {
    Get(x, PwsIdColumn) != Null && HasDigit(IdText(x)) &&
    NormalizeId(IdText(x), SheetStrip).Some? &&
    Get(y, PwsidColumn) == Int(NormalizeId(IdText(x), SheetStrip).value) &&
    Get(y, AreaTypeColumn) == Str(ApprovedSystem) &&
    forall c :: c in CarriedColumns ==> Get(y, c) == Get(x, c)
  }

  /** Every candidate comes from a row of the sheet. */
  lemma CandidateOrigin(systems: Table, parseTime: string -> Option<int>)
    requires Candidates(systems, parseTime).Ok?
    ensures forall y :: y in Candidates(systems, parseTime).value.rows ==>
      exists x :: x in systems.rows && Origin(y, x)
  {
    var out := Candidates(systems, parseTime).value.rows;
    forall y | y in out ensures exists x :: x in systems.rows && Origin(y, x) {
      var i :| 0 <= i < |out| && out[i] == y;
      CandidateOriginAt(systems, parseTime, i);
    }
  }

  lemma CandidateOriginAt(systems: Table, parseTime: string -> Option<int>, i: int)
    requires Candidates(systems, parseTime).Ok?
    requires 0 <= i < |Candidates(systems, parseTime).value.rows|
    ensures exists x :: x in systems.rows && Origin(Candidates(systems, parseTime).value.rows[i], x)
  {
    var valid := ValidRows(ApprovedText(systems).value);
    var y := Candidates(systems, parseTime).value.rows[i];
    ApprovedCells(valid, parseTime);
    assert valid[i] in valid;
    ValidOrigin(systems, valid[i]);
    var x :| x in systems.rows && TextOf(valid[i], x);
    assert NormalizeCell(SheetStrip)(Str(IdText(x))).Ok?;
    assert Origin(y, x);
  }

  /** `v` is the sheet row `x`, holding an id with a digit, with its id as text. */
  predicate TextOf(v: Row, x: Row)
  {
    Get(x, PwsIdColumn) != Null && HasDigit(IdText(x)) && Get(v, PwsIdColumn) == Str(IdText(x)) &&
    forall c :: c in CarriedColumns ==> Get(v, c) == Get(x, c)
  }

  /** A valid row is a sheet row holding an id with a digit, its id as text. */
  lemma ValidOrigin(systems: Table, v: Row)
    requires ApprovedText(systems).Ok?
    requires v in ValidRows(ApprovedText(systems).value)
    ensures exists x :: x in systems.rows && TextOf(v, x)
  {
    var rows := ApprovedText(systems).value;
    var present := Filter(systems.rows, Present(PwsIdColumn));
    assert v in rows && ValidId(v);
    var j :| 0 <= j < |rows| && rows[j] == v;
    ApprovedTextCells(systems);
    var x := present[j];
    assert x in present;
    assert Get(v, PwsIdColumn) == Str(IdText(x));
    assert IdText(v) == IdText(x);
    assert TextOf(v, x);
  }

  /** The cleaned frame keeps of each PWSID one candidate, the most recent
      (a missing time counting as most recent); every candidate PWSID
      survives and no PWSID survives twice. */
  lemma ApprovedSurvivors(systems: Table, parseTime: string -> Option<int>)
    requires ApproveSystems(systems, parseTime).cleaned.Ok?
    ensures forall y :: y in ApproveSystems(systems, parseTime).cleaned.value.rows ==>
      y in Candidates(systems, parseTime).value.rows
    ensures forall i, j :: 0 <= i < j < |ApproveSystems(systems, parseTime).cleaned.value.rows| ==>
      PwsidOf(ApproveSystems(systems, parseTime).cleaned.value.rows[i]) !=
      PwsidOf(ApproveSystems(systems, parseTime).cleaned.value.rows[j])
    ensures forall y, x ::
      y in ApproveSystems(systems, parseTime).cleaned.value.rows && x in Candidates(systems, parseTime).value.rows &&
      PwsidOf(x) == PwsidOf(y)
      ==> RowLe(x, y)
    ensures forall x :: x in Candidates(systems, parseTime).value.rows ==>
      exists y :: y in ApproveSystems(systems, parseTime).cleaned.value.rows && PwsidOf(y) == PwsidOf(x)
  {
    var rows := Candidates(systems, parseTime).value.rows;
    LatestUnique(rows);
    LatestIsNewest(rows);
    LatestCovers(rows);
  }
}
