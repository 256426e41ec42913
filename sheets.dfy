/** `GoogleSheetData`: the approved-systems sheet, the links sheet and the
    service-area layer, cleaned and merged step by step into the frame that is
    published, with the three reports the pipeline logs along the way. */
module Sheets {
  import opened Options
  import opened Seqs
  import opened Text
  import opened Frames
  import opened Pwsid
  import opened Recency
  import opened Approved
  import opened Links
  import opened Join
  import opened Areas
  import opened Agol

  /** A worksheet as the sheet loader reads it: the names of its first row
      and the cells of the rows below. */
  datatype Grid = Grid(header: seq<string>, body: seq<seq<Cell>>)

  /** The cell at position `k` of a sheet row; a row shorter than the header
      reads as empty text there. */
  function CellAt(cells: seq<Cell>, k: nat): Cell
  {
    if k < |cells| then cells[k] else Str("")
  }

  /** No column after position `k` has the name of column `k`. */
  predicate LastLabel(header: seq<string>, k: nat)
    requires k < |header|
  {
    forall m :: k < m < |header| ==> header[m] != header[k]
  }

  /** A sheet row under the header's names; when two columns share a name the
      later one's cell is the one kept. */
  function RowOf(header: seq<string>, cells: seq<Cell>): (r: Row)
    ensures r.Keys == set c | c in header
  {
    if header == [] then map[]
    else
      var n := |header| - 1;
      assert header == header[..n] + [header[n]];
      RowOf(header[..n], cells)[header[n] := CellAt(cells, n)]
  }

  /** Under a name no later column repeats, the row holds that column's cell. */
  lemma {:induction false} RowOfCell(header: seq<string>, cells: seq<Cell>, k: nat)
    requires k < |header| && LastLabel(header, k)
    ensures RowOf(header, cells)[header[k]] == CellAt(cells, k)
    decreases |header|
  {
    var n := |header| - 1;
    if k < n {
      var front := header[..n];
      assert front[k] == header[k];
      assert LastLabel(front, k) by {
        forall m | k < m < n ensures front[m] != front[k] {
          assert front[m] == header[m];
        }
      }
      assert header[k] != header[n];
      RowOfCell(front, cells, k);
    }
  }

  /** The loaded frame: one row per body row. */
  function GridTable(g: Grid): (t: Table)
    ensures t.columns == (set c | c in g.header) && |t.rows| == |g.body|
  {
    Table((set c | c in g.header), Map(g.body, (cells: seq<Cell>) => RowOf(g.header, cells)))
  }

  /** Each loaded row holds, under every name no later column repeats, the
      sheet cell of that column. */
  lemma GridTableCells(g: Grid)
    ensures forall j, k :: 0 <= j < |g.body| && 0 <= k < |g.header| && LastLabel(g.header, k) ==>
      Get(GridTable(g).rows[j], g.header[k]) == CellAt(g.body[j], k)
  {
    forall j, k | 0 <= j < |g.body| && 0 <= k < |g.header| && LastLabel(g.header, k)
      ensures Get(GridTable(g).rows[j], g.header[k]) == CellAt(g.body[j], k)
    {
      RowOfCell(g.header, g.body[j], k);
    }
  }

  /** `columns = iloc[0]` then `[1:]`: the first body row, as text, names the
      columns and the rows below it are the data. A sheet without a body row
      has no row to promote. */
  function Promote(g: Grid): (p: Option<Grid>)
    ensures p.None? <==> g.body == []
  {
    if g.body == [] then None
    else Some(Grid(seq(|g.header|, k requires 0 <= k < |g.header| => Render(CellAt(g.body[0], k))), g.body[1..]))
  }

  /** The name the second sheet row gives the column at position `k`. */
  function LabelAt(g: Grid, k: nat): string
    requires g.body != []
  {
    Render(CellAt(g.body[0], k))
  }

  /** After the promotion and the blank replacement the frame has one row per
      sheet row below the second; under each name the second row gives (once)
      it holds that row's cell, with empty text read as null; no cell is empty
      text. */
  lemma PromotedSystems(g: Grid)
    requires g.body != []
    ensures ReplaceBlanks(GridTable(Promote(g).value)).columns == set k | 0 <= k < |g.header| :: LabelAt(g, k)
    ensures |ReplaceBlanks(GridTable(Promote(g).value)).rows| == |g.body| - 1
    ensures forall j, k :: 1 <= j < |g.body| && 0 <= k < |g.header| && LastLabel(Promote(g).value.header, k) ==>
      Get(ReplaceBlanks(GridTable(Promote(g).value)).rows[j - 1], LabelAt(g, k)) == BlankToNull(CellAt(g.body[j], k))
    ensures forall j, c :: 0 <= j < |g.body| - 1 ==> Get(ReplaceBlanks(GridTable(Promote(g).value)).rows[j], c) != Str("")
  {
    var p := Promote(g).value;
    var t := GridTable(p);
    assert |p.header| == |g.header|;
    assert forall k :: 0 <= k < |g.header| ==> p.header[k] == LabelAt(g, k);
    assert (set c | c in p.header) == set k | 0 <= k < |g.header| :: LabelAt(g, k) by {
      forall c | c in p.header ensures c in set k | 0 <= k < |g.header| :: LabelAt(g, k) {
        var k :| 0 <= k < |p.header| && p.header[k] == c;
      }
    }
    forall j, k | 1 <= j < |g.body| && 0 <= k < |g.header| && LastLabel(p.header, k)
      ensures Get(ReplaceBlanks(t).rows[j - 1], LabelAt(g, k)) == BlankToNull(CellAt(g.body[j], k))
    {
      assert p.body[j - 1] == g.body[j];
      RowOfCell(p.header, p.body[j - 1], k);
      assert Get(t.rows[j - 1], LabelAt(g, k)) == CellAt(g.body[j], k);
      assert LabelAt(g, k) in t.rows[j - 1];
    }
  }

  /** The renamed links still carry the map link column, so what the links
      cleaning keeps is described by `LinksKept`. */
  lemma SelectedLinksKeepMapLink(t: Table, rows: seq<Row>)
    requires Select(t, SheetLinkColumns).Ok?
    ensures MapLinkColumn in RenameColumn(Table(Select(t, SheetLinkColumns).value.columns, rows), WaterSystemNameColumn, SystemNameColumn).columns
  {
  }

  class GoogleSheetData {
    var systems: Table
    var links: Table
    var cleanedSystems: Table
    var cleanedServiceAreas: Table
    var finalSystems: Table
    var missingGeometries: map<Cell, (Cell, Cell, Cell)>
    var invalidPwsids: seq<string>
    var duplicateLinkPwsids: map<Cell, Cell>

    constructor ()
      ensures systems == EmptyTable && links == EmptyTable && cleanedSystems == EmptyTable
      ensures cleanedServiceAreas == EmptyTable && finalSystems == EmptyTable
      ensures missingGeometries == map[] && invalidPwsids == [] && duplicateLinkPwsids == map[]
    {
      systems := EmptyTable;
      links := EmptyTable;
      cleanedSystems := EmptyTable;
      cleanedServiceAreas := EmptyTable;
      finalSystems := EmptyTable;
      missingGeometries := map[];
      invalidPwsids := [];
      duplicateLinkPwsids := map[];
    }

    /** Loads the approved-systems sheet, whose real header is its second row:
        that row names the columns, the rows below are kept, and empty text
        becomes null. A sheet with no row below the header fails, leaving the
        frame as loaded. */
    method LoadSystemsFromSheet(sheet: Grid) returns (outcome: Outcome)
      modifies this`systems
      ensures sheet.body == [] ==> outcome == Fail(NoHeaderRow) && systems == GridTable(sheet)
      ensures sheet.body != [] ==> outcome == Pass && systems == ReplaceBlanks(GridTable(Promote(sheet).value))
    {
      systems := GridTable(sheet);
      var promoted := Promote(sheet);
      if promoted.None? {
        return Fail(NoHeaderRow);
      }
      systems := GridTable(promoted.value);
      systems := ReplaceBlanks(systems);
      outcome := Pass;
    }

    /** Keeps the rows with an id, reports the ids without a digit (assigning
        the report only when there is one) and drops them, normalises ids and
        times, and keeps the most recent approval of each PWSID. A failing step
        leaves the cleaned frame as it was. */
    method CleanApprovedSystems(parseTime: string -> Option<int>) returns (outcome: Outcome)
      modifies this`cleanedSystems, this`invalidPwsids
      ensures var a := ApproveSystems(old(systems), parseTime);
        (a.invalid != [] ==> invalidPwsids == a.invalid) &&
        (a.invalid == [] ==> invalidPwsids == old(invalidPwsids)) &&
        (a.cleaned.Ok? ==> outcome == Pass && cleanedSystems == a.cleaned.value) &&
        (a.cleaned.Err? ==> outcome == Fail(a.cleaned.error) && cleanedSystems == old(cleanedSystems))
    {
      var text := ApprovedText(systems);
      if text.Err? {
        outcome := Fail(text.error);
      } else {
        ApproveSystemsSteps(systems, parseTime);
        var rows := text.value;
        var invalid := InvalidIds(rows);
        if invalid != [] {
          invalidPwsids := invalid;
          rows := Filter(rows, ValidId);
        }
        assert rows == ValidRows(text.value);
        var converted := ConvertedRows(rows, parseTime);
        if converted.Err? {
          outcome := Fail(converted.error);
        } else {
          var relabeled := Relabel(converted.value);
          cleanedSystems := Table(relabeled.columns, LatestPerId(relabeled.rows));
          outcome := Pass;
        }
      }
    }

    /** Loads the links sheet as it is. */
    method LoadSystemLinksFromGsheet(sheet: Grid)
      modifies this`links
      ensures links == GridTable(sheet)
    {
      links := GridTable(sheet);
    }

    /** Replaces empty text by null, keeps the rows with a PWSID and the three
        columns of interest, normalises the ids, renames the name column,
        reports the ids that occur more than once (assigning the report only
        when there is one), and keeps the last link of each PWSID. A failing
        step leaves the frame as the steps before it made it. */
    method CleanSystemLinks() returns (outcome: Outcome)
      modifies this`links, this`duplicateLinkPwsids
      ensures var blank := ReplaceBlanks(old(links));
        var present := DropNulls(blank, PwsidColumn);
        if present.Err? then
          outcome == Fail(present.error) && links == blank && duplicateLinkPwsids == old(duplicateLinkPwsids)
        else
          var selected := Select(present.value, SheetLinkColumns);
          if selected.Err? then
            outcome == Fail(selected.error) && links == present.value && duplicateLinkPwsids == old(duplicateLinkPwsids)
          else
            var ids := ConvertColumn(selected.value.rows, PwsidColumn, PwsidColumn, NormalizeCell(SheetStrip));
            if ids.Err? then
              outcome == Fail(ids.error) && links == selected.value && duplicateLinkPwsids == old(duplicateLinkPwsids)
            else
              var named := RenameColumn(Table(selected.value.columns, ids.value), WaterSystemNameColumn, SystemNameColumn);
              outcome == Pass && links == LinkTable(named) &&
              (Filter(named.rows, Repeated(named.rows)) != [] ==> duplicateLinkPwsids == DuplicateReport(named.rows)) &&
              (Filter(named.rows, Repeated(named.rows)) == [] ==> duplicateLinkPwsids == old(duplicateLinkPwsids))
    {
      var blank := ReplaceBlanks(links);
      var present := DropNulls(blank, PwsidColumn);
      var cleaned, report := blank, duplicateLinkPwsids;
      if present.Err? {
        outcome := Fail(present.error);
      } else {
        var selected := Select(present.value, SheetLinkColumns);
        if selected.Err? {
          cleaned := present.value;
          outcome := Fail(selected.error);
        } else {
          var ids := ConvertColumn(selected.value.rows, PwsidColumn, PwsidColumn, NormalizeCell(SheetStrip));
          if ids.Err? {
            cleaned := selected.value;
            outcome := Fail(ids.error);
          } else {
            var named := RenameColumn(Table(selected.value.columns, ids.value), WaterSystemNameColumn, SystemNameColumn);
            var duplicated := Filter(named.rows, Repeated(named.rows));
            if duplicated != [] {
              report := DuplicateReport(named.rows);
            }
            cleaned := LinkTable(named);
            outcome := Pass;
          }
        }
      }
      links, duplicateLinkPwsids := cleaned, report;
    }

    /** Keeps the areas with a real system number and gives each the PWSID
        normalised from it. A layer without the system number column fails
        unchanged; a number that does not normalise fails after the filter. */
    method LoadSystemGeometries(layer: Table) returns (outcome: Outcome)
      modifies this`cleanedServiceAreas
      ensures var realAreas := RealAreas(layer);
        if realAreas.Err? then outcome == Fail(realAreas.error) && cleanedServiceAreas == old(cleanedServiceAreas)
        else
          var ids := AreaIds(realAreas.value);
          if ids.Err? then outcome == Fail(ids.error) && cleanedServiceAreas == realAreas.value
          else outcome == Pass && cleanedServiceAreas == ids.value
    {
      var realAreas := RealAreas(layer);
      if realAreas.Err? {
        return Fail(realAreas.error);
      }
      cleanedServiceAreas := realAreas.value;
      var ids := AreaIds(cleanedServiceAreas);
      if ids.Err? {
        return Fail(ids.error);
      }
      cleanedServiceAreas := ids.value;
      outcome := Pass;
    }

    /** Left-joins the approved systems followed by the links onto the areas
        by PWSID, reports the joined rows without an FID (assigning the report
        only when there is one) and keeps those with one. */
    method MergeSystemsAndGeometries() returns (outcome: Outcome)
      modifies this`missingGeometries, this`finalSystems
      ensures var all := Concat(old(cleanedSystems), old(links));
        var merged := LeftJoin(all, old(cleanedServiceAreas), PwsidColumn);
        if merged.Err? then outcome == Fail(merged.error) && finalSystems == old(finalSystems) && missingGeometries == old(missingGeometries)
        else if FidColumn !in merged.value.columns then outcome == Fail(MissingColumn(FidColumn)) && finalSystems == old(finalSystems) && missingGeometries == old(missingGeometries)
        else
          var noArea := WithoutArea(merged.value);
          var missing := FirstMissing(ReportColumns, merged.value.columns);
          if noArea != [] && missing.Some? then outcome == Fail(MissingColumn(missing.value)) && finalSystems == old(finalSystems) && missingGeometries == old(missingGeometries)
          else
            outcome == Pass && finalSystems == Table(merged.value.columns, WithArea(merged.value)) &&
            (noArea != [] ==> missingGeometries == MissingReport(noArea)) &&
            (noArea == [] ==> missingGeometries == old(missingGeometries))
    {
      var all := Concat(cleanedSystems, links);
      var merged := LeftJoin(all, cleanedServiceAreas, PwsidColumn);
      var final, report := finalSystems, missingGeometries;
      if merged.Err? {
        outcome := Fail(merged.error);
      } else if FidColumn !in merged.value.columns {
        outcome := Fail(MissingColumn(FidColumn));
      } else {
        var noArea := WithoutArea(merged.value);
        var missing := FirstMissing(ReportColumns, merged.value.columns);
        if noArea != [] && missing.Some? {
          outcome := Fail(MissingColumn(missing.value));
        } else {
          if noArea != [] {
            report := MissingReport(noArea);
          }
          final := Table(merged.value.columns, WithArea(merged.value));
          outcome := Pass;
        }
      }
      finalSystems, missingGeometries := final, report;
    }

    /** Renames every column but SHAPE to its lower-cased AGOL name and drops
        the area and length columns. Without SHAPE it fails unchanged; a
        missing area or length column fails after the rename. */
    method CleanDataframeForAgol(agolName: string -> string) returns (outcome: Outcome)
      requires DistinctNames(agolName, finalSystems.columns)
      modifies this`finalSystems
      ensures var renamed := RenameForAgol(old(finalSystems), agolName);
        if renamed.Err? then outcome == Fail(renamed.error) && finalSystems == old(finalSystems)
        else
          var dropped := DropColumns(renamed.value, DroppedColumns);
          if dropped.Err? then outcome == Fail(dropped.error) && finalSystems == renamed.value
          else outcome == Pass && finalSystems == dropped.value
    {
      var renamed := RenameForAgol(finalSystems, agolName);
      if renamed.Err? {
        return Fail(renamed.error);
      }
      finalSystems := renamed.value;
      var dropped := DropColumns(finalSystems, DroppedColumns);
      if dropped.Err? {
        return Fail(dropped.error);
      }
      finalSystems := dropped.value;
      outcome := Pass;
    }
  }
}
