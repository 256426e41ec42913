/** The service-area layer and the merge of the systems onto it: areas with
    the placeholder system number " " are dropped, the others get a PWSID
    normalised from their system number; approved systems and links are then
    left-joined to the areas on PWSID, the systems without an area reported
    and the rest kept. */
module Areas {
  import opened Seqs
  import opened Text
  import opened Frames
  import opened Pwsid
  import opened Recency
  import opened Approved
  import opened Join

  const SystemNumberColumn := "DWSYSNUM"

  /** The system number the layer holds for an area that has none. */
  const Placeholder := Str(" ")

  /** The object id of an area: present in every row of the layer. */
  const FidColumn := "FID"

  const RealArea: Row -> bool := (r: Row) => Get(r, SystemNumberColumn) != Placeholder
  const PlaceholderArea: Row -> bool := (r: Row) => Get(r, SystemNumberColumn) == Placeholder

  /** `layer[layer["DWSYSNUM"] != " "]`. */
  function RealAreas(layer: Table): (r: Result<Table>)
    ensures r.Ok? <==> SystemNumberColumn in layer.columns
    ensures r.Err? ==> r.error == MissingColumn(SystemNumberColumn)
    ensures r.Ok? ==> r.value.columns == layer.columns
    ensures r.Ok? ==> forall x :: x in r.value.rows <==> x in layer.rows && Get(x, SystemNumberColumn) != Placeholder
    ensures r.Ok? ==> r.value.rows == Filter(layer.rows, RealArea)
  {
    if SystemNumberColumn in layer.columns then Ok(Table(layer.columns, Filter(layer.rows, RealArea)))
    else Err(MissingColumn(SystemNumberColumn))
  }

  /** Dropping the placeholders loses no other area. */
  lemma AreasAccounting(layer: Table)
    requires SystemNumberColumn in layer.columns
    ensures |RealAreas(layer).value.rows| + |Filter(layer.rows, PlaceholderArea)| == |layer.rows|
  {
    FilterSplit(layer.rows, RealArea, PlaceholderArea);
  }

  /** `areas["PWSID"] = areas["DWSYSNUM"].str.lower().str.strip("utahz").astype(int)`. */
  function AreaIds(areas: Table): (r: Result<Table>)
    ensures r.Ok? ==> r.value.columns == areas.columns + {PwsidColumn} && |r.value.rows| == |areas.rows|
    ensures r.Ok? ==> forall i, c :: 0 <= i < |areas.rows| && c != PwsidColumn ==>
      Get(r.value.rows[i], c) == Get(areas.rows[i], c)
  {
    match ConvertColumn(areas.rows, SystemNumberColumn, PwsidColumn, NormalizeCell(LayerStrip))
    case Err(e) => Err(e)
    case Ok(rows) => Ok(Table(areas.columns + {PwsidColumn}, rows))
  }

  /** Every area kept has a system number that is text with a digit, and its
      PWSID is that number normalised with the layer letters; an area whose
      number does not normalise makes the whole conversion fail. */
  lemma AreaIdsNormalised(areas: Table)
    ensures AreaIds(areas).Ok? <==> forall x :: x in areas.rows ==> NormalizeCell(LayerStrip)(Get(x, SystemNumberColumn)).Ok?
    ensures AreaIds(areas).Ok? ==> forall i :: 0 <= i < |areas.rows| ==>
      Get(areas.rows[i], SystemNumberColumn).Str? && HasDigit(Get(areas.rows[i], SystemNumberColumn).s) &&
      NormalizeId(Get(areas.rows[i], SystemNumberColumn).s, LayerStrip).Some? &&
      Get(AreaIds(areas).value.rows[i], PwsidColumn) == Int(NormalizeId(Get(areas.rows[i], SystemNumberColumn).s, LayerStrip).value)
    ensures AreaIds(areas).Err? ==> AreaIds(areas).error.NotAnInteger?
  {
    forall c: Cell | NormalizeCell(LayerStrip)(c).Ok?
      ensures c.Str? && HasDigit(c.s) && NormalizeId(c.s, LayerStrip).Some? &&
        NormalizeCell(LayerStrip)(c).value == Int(NormalizeId(c.s, LayerStrip).value)
    {
      NormalizeCellSound(LayerStrip, c);
    }
    forall c: Cell | NormalizeCell(LayerStrip)(c).Err? ensures NormalizeCell(LayerStrip)(c).error.NotAnInteger? {
      NormalizeCellError(LayerStrip, c);
    }
  }

  // ---------------------------------------------------------------------
  // The merge

  /** The columns each missing-geometry entry reports, in order. */
  const ReportColumns: seq<string> := [SystemNameColumn, SizeColumn, AreaTypeColumn]

  function ReportValue(r: Row): (Cell, Cell, Cell)
  {
    (Get(r, SystemNameColumn), Get(r, SizeColumn), Get(r, AreaTypeColumn))
  }

  /** `{row["PWSID"]: (name, size, area type) for each row without an area}`. */
  function MissingReport(noArea: seq<Row>): map<Cell, (Cell, Cell, Cell)>
  {
    Dict(noArea, PwsidOf, ReportValue)
  }

  /** What a left join of the systems onto the areas leaves: the joined rows
      with an area (FID present) and those without. */
  function WithArea(merged: Table): seq<Row>
  {
    Filter(merged.rows, MarkerPresent(FidColumn))
  }

  function WithoutArea(merged: Table): seq<Row>
  {
    Filter(merged.rows, MarkerMissing(FidColumn))
  }

  lemma PwsidNotSuffixed()
    ensures KeyNotSuffixed(PwsidColumn)
  {
    assert PwsidColumn[3..] == "ID";
  }

  /** The areas as the merge needs them: every area has an FID, and the
      systems do not have that column. */
  predicate AreasMarked(all: Table, areas: Table)
  {
    MarkedRight(all, areas, PwsidColumn, FidColumn)
  }

  /** The report names exactly the PWSIDs of the systems no area matches;
      each entry holds the name, size and area type of one joined row without
      an area that carries that PWSID. */
  lemma MissingReportContents(all: Table, areas: Table)
    requires Mergeable(all, areas, PwsidColumn) && AreasMarked(all, areas)
    ensures (MissingReport(WithoutArea(LeftJoin(all, areas, PwsidColumn).value)).Keys) ==
      KeysOf(Filter(all.rows, Unmatched(areas, PwsidColumn)), PwsidColumn)
    ensures forall k :: k in MissingReport(WithoutArea(LeftJoin(all, areas, PwsidColumn).value)) ==>
      exists x :: x in WithoutArea(LeftJoin(all, areas, PwsidColumn).value) && PwsidOf(x) == k &&
        MissingReport(WithoutArea(LeftJoin(all, areas, PwsidColumn).value))[k] == ReportValue(x)
  {
    PwsidNotSuffixed();
    UnmatchedKeys(all, areas, PwsidColumn, FidColumn);
    ReportEntries(WithoutArea(LeftJoin(all, areas, PwsidColumn).value));
  }

  /** A report keyed by PWSID names the PWSIDs of its rows, each with the
      values of one of those rows. */
  lemma ReportEntries(noArea: seq<Row>)
    ensures MissingReport(noArea).Keys == KeysOf(noArea, PwsidColumn)
    ensures forall k :: k in MissingReport(noArea) ==>
      exists x :: x in noArea && PwsidOf(x) == k && MissingReport(noArea)[k] == ReportValue(x)
  {
    DictKeys(noArea, PwsidOf, ReportValue);
    forall k | k in MissingReport(noArea)
      ensures exists x :: x in noArea && PwsidOf(x) == k && MissingReport(noArea)[k] == ReportValue(x)
    {
      DictLast(noArea, PwsidOf, ReportValue, k);
    }
  }

  /** Every kept row has an area with its PWSID and that area's FID, and no
      PWSID the report names reaches the kept rows. */
  lemma KeptRowsMatched(all: Table, areas: Table)
    requires Mergeable(all, areas, PwsidColumn) && AreasMarked(all, areas)
    ensures forall x :: x in WithArea(LeftJoin(all, areas, PwsidColumn).value) ==>
      exists a :: a in areas.rows && PwsidOf(a) == PwsidOf(x) && Get(a, FidColumn) == Get(x, FidColumn)
    ensures forall x :: x in WithArea(LeftJoin(all, areas, PwsidColumn).value) ==>
      PwsidOf(x) !in MissingReport(WithoutArea(LeftJoin(all, areas, PwsidColumn).value))
  {
    PwsidNotSuffixed();
    var merged := LeftJoin(all, areas, PwsidColumn).value;
    MatchedRowsHaveMatch(all, areas, PwsidColumn, FidColumn);
    MissingReportContents(all, areas);
  }

  /** With one area per PWSID the join keeps every system row exactly once:
      the kept rows number the matched systems and the unreported rows the
      unmatched ones. */
  lemma MergeCounts(all: Table, areas: Table)
    requires Mergeable(all, areas, PwsidColumn) && AreasMarked(all, areas)
    requires forall i, j :: 0 <= i < j < |areas.rows| ==> PwsidOf(areas.rows[i]) != PwsidOf(areas.rows[j])
    ensures |LeftJoin(all, areas, PwsidColumn).value.rows| == |all.rows|
    ensures |WithArea(LeftJoin(all, areas, PwsidColumn).value)| == |Filter(all.rows, IsMatched(areas, PwsidColumn))|
    ensures |WithoutArea(LeftJoin(all, areas, PwsidColumn).value)| == |Filter(all.rows, Unmatched(areas, PwsidColumn))|
  {
    PwsidNotSuffixed();
    UniqueRightKeys(all, areas, PwsidColumn, FidColumn);
  }
}
