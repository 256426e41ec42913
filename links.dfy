/** The interactive-map links sheet: ids normalised like the approved ones,
    ids that occur more than once reported by system name, and of each id
    only the last link kept, as a frame of exactly four columns. */
module Links {
  import opened Seqs
  import opened Frames
  import opened Pwsid
  import opened Recency
  import opened Approved

  /** The sheet's own header for the system name, misspelt as it is there. */
  const WaterSystemNameColumn := "Water Systme Name"
  const MapLinkColumn := "Interactive map link"
  const LinkColumn := "link"
  const LinkAreaType := "Link"

  const SheetLinkColumns: seq<string> := [PwsidColumn, WaterSystemNameColumn, MapLinkColumn]

  const LinkOutColumns: set<string> := {PwsidColumn, SystemNameColumn, LinkColumn, AreaTypeColumn}

  function NameOf(r: Row): Cell
  {
    Get(r, SystemNameColumn)
  }

  /** The mask `links["PWSID"].duplicated(keep=False)`. */
  function Repeated(rows: seq<Row>): Row -> bool
  {
    (r: Row) => Occurrences(rows, PwsidOf, PwsidOf(r)) >= 2
  }

  /** `{row["System Name"]: row["PWSID"] for each duplicated row}`. */
  function DuplicateReport(rows: seq<Row>): map<Cell, Cell>
  {
    Dict(Filter(rows, Repeated(rows)), NameOf, PwsidOf)
  }

  /** The report names exactly the systems of rows whose PWSID occurs at
      least twice. */
  lemma DuplicateReportKeys(rows: seq<Row>)
    ensures forall n :: n in DuplicateReport(rows) <==>
      exists x :: x in rows && NameOf(x) == n && TwoWith(rows, PwsidOf, PwsidOf(x))
  {
    var dups := Filter(rows, Repeated(rows));
    DictKeys(dups, NameOf, PwsidOf);
    forall x | x in rows ensures x in dups <==> TwoWith(rows, PwsidOf, PwsidOf(x)) {
      OccurrencesTwo(rows, PwsidOf, PwsidOf(x));
    }
  }

  /** A name maps to the PWSID of its last duplicated row, which does occur
      twice; rows sharing a name share one entry. */
  lemma DuplicateReportValues(rows: seq<Row>)
    ensures forall n :: n in DuplicateReport(rows) ==>
      (exists x :: x in Filter(rows, Repeated(rows)) && NameOf(x) == n) &&
      DuplicateReport(rows)[n] == PwsidOf(LastWith(Filter(rows, Repeated(rows)), NameOf, n)) &&
      TwoWith(rows, PwsidOf, DuplicateReport(rows)[n])
  {
    var dups := Filter(rows, Repeated(rows));
    DictKeys(dups, NameOf, PwsidOf);
    forall n | n in DuplicateReport(rows)
      ensures DuplicateReport(rows)[n] == PwsidOf(LastWith(dups, NameOf, n)) &&
        TwoWith(rows, PwsidOf, DuplicateReport(rows)[n])
    {
      DictLast(dups, NameOf, PwsidOf, n);
      var last := LastWith(dups, NameOf, n);
      OccurrencesTwo(rows, PwsidOf, PwsidOf(last));
    }
  }

  /** The cleaned links from the renamed sheet rows: the last row of each
      PWSID, stamped with the area type "Link", the link column renamed and
      the frame reduced to the four output columns. */
  function LinkTable(t: Table): (u: Table)
    ensures u.columns == LinkOutColumns
  {
    var kept := Table(t.columns, KeepLast(t.rows, PwsidOf));
    var typed := SetColumn(kept, AreaTypeColumn, Str(LinkAreaType));
    var renamed := RenameColumn(typed, MapLinkColumn, LinkColumn);
    Project(renamed, LinkOutColumns)
  }

  /** Each cleaned link is its kept row, cell by cell. */
  lemma LinkTableCells(t: Table)
    requires MapLinkColumn in t.columns
    ensures |LinkTable(t).rows| == |KeepLast(t.rows, PwsidOf)|
    ensures forall i :: 0 <= i < |LinkTable(t).rows| ==>
      Get(LinkTable(t).rows[i], PwsidColumn) == PwsidOf(KeepLast(t.rows, PwsidOf)[i]) &&
      Get(LinkTable(t).rows[i], SystemNameColumn) == NameOf(KeepLast(t.rows, PwsidOf)[i]) &&
      Get(LinkTable(t).rows[i], LinkColumn) == Get(KeepLast(t.rows, PwsidOf)[i], MapLinkColumn) &&
      Get(LinkTable(t).rows[i], AreaTypeColumn) == Str(LinkAreaType)
  {
    var kept := Table(t.columns, KeepLast(t.rows, PwsidOf));
    var typed := SetColumn(kept, AreaTypeColumn, Str(LinkAreaType));
    assert MapLinkColumn in typed.columns;
  }

  /** `y` is the link made of `x`, the last of `rows` with its PWSID. */
  ghost predicate LastLinkOf(rows: seq<Row>, y: Row, x: Row)
  {
    x in rows && PwsidOf(x) == Get(y, PwsidColumn) && x == LastWith(rows, PwsidOf, PwsidOf(x)) &&
    Get(y, SystemNameColumn) == NameOf(x) && Get(y, LinkColumn) == Get(x, MapLinkColumn)
  }

  /** The cleaned links carry exactly the four output columns and the area
      type "Link"; no PWSID occurs twice; every PWSID of the sheet has a link;
      and each link holds the name and link of the last row with its PWSID. */
  lemma LinksKept(t: Table)
    requires MapLinkColumn in t.columns
    ensures forall y :: y in LinkTable(t).rows ==> Get(y, AreaTypeColumn) == Str(LinkAreaType)
    ensures forall i, j :: 0 <= i < j < |LinkTable(t).rows| ==>
      Get(LinkTable(t).rows[i], PwsidColumn) != Get(LinkTable(t).rows[j], PwsidColumn)
    ensures forall x :: x in t.rows ==> exists y :: y in LinkTable(t).rows && Get(y, PwsidColumn) == PwsidOf(x)
    ensures forall y :: y in LinkTable(t).rows ==> exists x :: x in t.rows && LastLinkOf(t.rows, y, x)
  {
    var kept := KeepLast(t.rows, PwsidOf);
    var out := LinkTable(t).rows;
    LinkTableCells(t);
    KeepLastUnique(t.rows, PwsidOf);
    KeepLastCovers(t.rows, PwsidOf);
    KeepLastPicksLast(t.rows, PwsidOf);
    forall x | x in t.rows ensures exists y :: y in out && Get(y, PwsidColumn) == PwsidOf(x) {
      var z :| z in kept && PwsidOf(z) == PwsidOf(x);
      var i :| 0 <= i < |kept| && kept[i] == z;
      assert out[i] in out;
    }
    forall y | y in out
      ensures exists x :: x in t.rows && LastLinkOf(t.rows, y, x)
    {
      var i :| 0 <= i < |out| && out[i] == y;
      assert kept[i] in kept;
    }
  }
}
