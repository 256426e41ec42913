/** The lead-service-line points: paged out of a GraphQL endpoint, split on
    missing coordinates, placed in their spatial reference by latitude and
    cleaned for the hosted layer. */
module Points {
  import opened Options
  import opened Seqs
  import opened Text
  import opened Frames

  // ---------------------------------------------------------------------
  // Pagination

  /** The endpoint's answer to one page request: the page's records, or an
      error raised by the client. */
  datatype Response = Page(records: seq<Row>) | RequestError

  /** The endpoint, as the answer it gives to the request at each offset
      (with the fixed query and page limit). */
  type Endpoint = int -> Response

  /** Request number `k` ends the loop: it raises, or its page is not full. */
  predicate EndsAt(endpoint: Endpoint, limit: int, k: nat)
  {
    var response := endpoint(k * limit);
    response.RequestError? || |response.records| != limit
  }

  lemma {:induction false} LeastEnd(endpoint: Endpoint, limit: int, w: nat)
    requires EndsAt(endpoint, limit, w)
    ensures exists k: nat :: EndsAt(endpoint, limit, k) && forall j: nat :: j < k ==> !EndsAt(endpoint, limit, j)
    decreases w
  {
    if exists j: nat :: j < w && EndsAt(endpoint, limit, j) {
      var j: nat :| j < w && EndsAt(endpoint, limit, j);
      LeastEnd(endpoint, limit, j);
    }
  }

  /** The number of the last request made: the first one that ends the loop. */
  ghost function LastRequest(endpoint: Endpoint, limit: int): (k: nat)
    requires exists k: nat :: EndsAt(endpoint, limit, k)
    ensures EndsAt(endpoint, limit, k)
    ensures forall j: nat :: j < k ==> !EndsAt(endpoint, limit, j)
  {
    var w: nat :| EndsAt(endpoint, limit, w);
    LeastEnd(endpoint, limit, w);
    var k: nat :| EndsAt(endpoint, limit, k) && forall j: nat :: j < k ==> !EndsAt(endpoint, limit, j);
    k
  }

  function PageRecords(response: Response): seq<Row>
  {
    if response.Page? then response.records else []
  }

  /** The records of the first `n` pages, in request order. */
  function Received(endpoint: Endpoint, limit: int, n: nat): seq<Row>
  {
    if n == 0 then [] else Received(endpoint, limit, n - 1) + PageRecords(endpoint((n - 1) * limit))
  }

  /** The offsets of the first `n` requests: 0, limit, 2 * limit, ... */
  function Offsets(limit: int, n: nat): (r: seq<int>)
    ensures |r| == n && forall j :: 0 <= j < n ==> r[j] == j * limit
  {
    seq(n, j requires 0 <= j < n => j * limit)
  }

  /** Every page before the last is full, so their records come `limit` at a time. */
  lemma {:induction false} ReceivedFullPages(endpoint: Endpoint, limit: int, n: nat)
    requires forall j: nat :: j < n ==> !EndsAt(endpoint, limit, j)
    ensures |Received(endpoint, limit, n)| == n * limit
  {
    if n > 0 {
      ReceivedFullPages(endpoint, limit, n - 1);
      assert !EndsAt(endpoint, limit, n - 1);
    }
  }

  /** Pages of two, two and none (a server with four records) yield four records. */
  lemma FourRecords(a: Row, b: Row, c: Row, d: Row, endpoint: Endpoint)
    requires endpoint(0) == Page([a, b]) && endpoint(2) == Page([c, d]) && endpoint(4) == Page([])
    ensures EndsAt(endpoint, 2, 2)
    ensures LastRequest(endpoint, 2) == 2
    ensures Received(endpoint, 2, LastRequest(endpoint, 2) + 1) == [a, b, c, d]
  {
    assert !EndsAt(endpoint, 2, 0) && !EndsAt(endpoint, 2, 1) && EndsAt(endpoint, 2, 2);
    assert Received(endpoint, 2, 2) == [a, b] + [c, d];
  }

  /** Pages of two, two and one yield five records. */
  lemma FiveRecords(a: Row, b: Row, c: Row, d: Row, e: Row, endpoint: Endpoint)
    requires endpoint(0) == Page([a, b]) && endpoint(2) == Page([c, d]) && endpoint(4) == Page([e])
    ensures EndsAt(endpoint, 2, 2)
    ensures LastRequest(endpoint, 2) == 2
    ensures Received(endpoint, 2, LastRequest(endpoint, 2) + 1) == [a, b, c, d, e]
  {
    assert !EndsAt(endpoint, 2, 0) && !EndsAt(endpoint, 2, 1) && EndsAt(endpoint, 2, 2);
    assert Received(endpoint, 2, 2) == [a, b] + [c, d];
  }

  /** The page a server holding `data` returns at `offset`. */
  function Slice(data: seq<Row>, limit: nat, offset: int): seq<Row>
  {
    if 0 <= offset <= |data| then data[offset..if offset + limit <= |data| then offset + limit else |data|] else []
  }

  /** Against a server that pages through `data`, the loop makes
      `|data| / limit + 1` requests and receives all of `data`, in order,
      each record once; when `|data|` is a multiple of `limit` the last
      request returns an empty page. */
  lemma SlicedServer(data: seq<Row>, limit: nat, endpoint: Endpoint)
    requires limit > 0
    requires forall offset :: endpoint(offset) == Page(Slice(data, limit, offset))
    ensures exists k: nat :: EndsAt(endpoint, limit, k)
    ensures LastRequest(endpoint, limit) == |data| / limit
    ensures Received(endpoint, limit, LastRequest(endpoint, limit) + 1) == data
  {
    var q := |data| / limit;
    SlicedEndsAtQuotient(data, limit, endpoint);
    forall j: nat | j < q ensures !EndsAt(endpoint, limit, j) {
      SlicedFullBefore(data, limit, endpoint, j);
    }
    LastRequestIs(endpoint, limit, q);
    DivBounds(|data|, limit);
    SlicedPrefix(data, limit, endpoint, q);
    SlicedLastPage(data, limit, endpoint, q, q * limit);
  }

  /** The last request is the first one that ends the loop. */
  lemma LastRequestIs(endpoint: Endpoint, limit: int, k: nat)
    requires EndsAt(endpoint, limit, k)
    requires forall j: nat :: j < k ==> !EndsAt(endpoint, limit, j)
    ensures LastRequest(endpoint, limit) == k
  {
  }

  lemma DivBounds(n: nat, d: nat)
    requires d > 0
    ensures (n / d) * d <= n < (n / d) * d + d
  {
  }

  lemma SlicedFullBefore(data: seq<Row>, limit: nat, endpoint: Endpoint, j: nat)
    requires limit > 0 && j < |data| / limit
    requires forall offset :: endpoint(offset) == Page(Slice(data, limit, offset))
    ensures !EndsAt(endpoint, limit, j)
  {
    var q := |data| / limit;
    MulMono(j + 1, q, limit);
    assert (j + 1) * limit == j * limit + limit;
    DivBounds(|data|, limit);
    assert |Slice(data, limit, j * limit)| == limit;
  }

  lemma SlicedEndsAtQuotient(data: seq<Row>, limit: nat, endpoint: Endpoint)
    requires limit > 0
    requires forall offset :: endpoint(offset) == Page(Slice(data, limit, offset))
    ensures EndsAt(endpoint, limit, |data| / limit)
  {
    var q := |data| / limit;
    DivBounds(|data|, limit);
    assert |Slice(data, limit, q * limit)| < limit;
  }

  lemma SlicedLastPage(data: seq<Row>, limit: nat, endpoint: Endpoint, q: nat, o: nat)
    requires limit > 0 && o == q * limit && o <= |data| < o + limit
    requires forall offset :: endpoint(offset) == Page(Slice(data, limit, offset))
    requires Received(endpoint, limit, q) == data[..o]
    ensures Received(endpoint, limit, q + 1) == data
  {
    assert Slice(data, limit, o) == data[o..];
    ReceivedStep(endpoint, limit, q);
    assert data[..o] + data[o..] == data;
  }

  lemma ReceivedStep(endpoint: Endpoint, limit: int, n: nat)
    ensures Received(endpoint, limit, n + 1) == Received(endpoint, limit, n) + PageRecords(endpoint(n * limit))
  {
    assert n + 1 - 1 == n;
  }

  lemma MulMono(a: nat, b: nat, c: nat)
    requires a <= b
    ensures a * c <= b * c
  {
  }

  lemma {:induction false} SlicedPrefix(data: seq<Row>, limit: nat, endpoint: Endpoint, n: nat)
    requires limit > 0 && n * limit <= |data|
    requires forall offset :: endpoint(offset) == Page(Slice(data, limit, offset))
    ensures Received(endpoint, limit, n) == data[..n * limit]
  {
    if n > 0 {
      MulMono(n - 1, n, limit);
      SlicedPrefix(data, limit, endpoint, n - 1);
      var o := (n - 1) * limit;
      assert o + limit == n * limit;
      assert data[..n * limit] == data[..o] + data[o..o + limit];
    }
  }

  // ---------------------------------------------------------------------
  // Coordinates and spatial references

  const Latitude := "latitude"
  const Longitude := "longitude"

  /** `isna()` on either coordinate. */
  predicate MissingCoordinates(r: Row)
  {
    Get(r, Latitude) == Null || Get(r, Longitude) == Null
  }

  predicate HasCoordinates(r: Row)
  {
    !MissingCoordinates(r)
  }

  predicate IsNumber(c: Cell) { c.Int? || c.Real? }

  function NumberValue(c: Cell): real
  {
    match c
    case Int(i) => i as real
    case Real(x) => x
    case _ => 0.0
  }

  function LatitudeOf(r: Row): real { NumberValue(Get(r, Latitude)) }

  function LongitudeOf(r: Row): real { NumberValue(Get(r, Longitude)) }

  /** Latitude below 100: degrees, so WGS84. */
  predicate InWgs84(r: Row) { LatitudeOf(r) < 100.0 }

  /** Latitude above 100: metres northing, so UTM zone 12N on NAD83. */
  predicate InUtm(r: Row) { LatitudeOf(r) > 100.0 }

  /** Latitude exactly 100: in neither group. */
  predicate OnBoundary(r: Row) { LatitudeOf(r) == 100.0 }

  predicate OffBoundary(r: Row) { LatitudeOf(r) != 100.0 }

  /** The row with its point, built from (longitude, latitude) in `crs` and
      projected to Web Mercator. */
  function Located(r: Row, crs: Crs): (u: Row)
    ensures Get(u, ShapeColumn) == Shape(Point(crs, WebMercator, LongitudeOf(r), LatitudeOf(r)))
    ensures forall c :: c != ShapeColumn ==> Get(u, c) == Get(r, c)
  {
    r[ShapeColumn := Shape(Point(crs, WebMercator, LongitudeOf(r), LatitudeOf(r)))]
  }

  function LocateWgs84(r: Row): Row { Located(r, Wgs84) }

  function LocateUtm(r: Row): Row { Located(r, UtmNad83) }

  /** The frames handed to `pd.concat`: the WGS84 group, then the UTM group,
      each one only when it is not empty. */
  function DatumFrames(rows: seq<Row>): seq<seq<Row>>
  {
    Groups(Map(Filter(rows, InWgs84), LocateWgs84), Map(Filter(rows, InUtm), LocateUtm))
  }

  /** The list built by appending each of two frames that is not empty. */
  function Groups(a: seq<Row>, b: seq<Row>): seq<seq<Row>>
  {
    (if a == [] then [] else [a]) + (if b == [] then [] else [b])
  }

  function Flatten(frames: seq<seq<Row>>): seq<Row>
  {
    if frames == [] then [] else frames[0] + Flatten(frames[1..])
  }

  /** `pd.concat(frames)`, which refuses an empty list. */
  function ConcatFrames(frames: seq<seq<Row>>): (r: Result<seq<Row>>)
    ensures r.Err? <==> frames == []
    ensures r.Err? ==> r.error == NoObjectsToConcatenate
  {
    if frames == [] then Err(NoObjectsToConcatenate) else Ok(Flatten(frames))
  }

  /** The located points: every WGS84 row, then every UTM row, in input order. */
  function Spatialized(rows: seq<Row>): seq<Row>
  {
    Map(Filter(rows, InWgs84), LocateWgs84) + Map(Filter(rows, InUtm), LocateUtm)
  }

  /** No empty group is handed to the concatenation. */
  lemma DatumFramesNonEmpty(rows: seq<Row>)
    ensures forall i :: 0 <= i < |DatumFrames(rows)| ==> DatumFrames(rows)[i] != []
  {
    GroupsNonEmpty(Map(Filter(rows, InWgs84), LocateWgs84), Map(Filter(rows, InUtm), LocateUtm));
  }

  lemma GroupsNonEmpty(a: seq<Row>, b: seq<Row>)
    ensures forall i :: 0 <= i < |Groups(a, b)| ==> Groups(a, b)[i] != []
  {
    var g := Groups(a, b);
    if a != [] && b != [] {
      assert g == [a, b];
    } else if a != [] {
      assert g == [a];
    } else if b != [] {
      assert g == [b];
    } else {
      assert g == [];
    }
  }

  /** Concatenating the groups gives all WGS84 rows followed by all UTM rows,
      and fails exactly when there are none of either. */
  lemma ConcatDatumFrames(rows: seq<Row>)
    ensures ConcatFrames(DatumFrames(rows)).Err? <==> Spatialized(rows) == []
    ensures ConcatFrames(DatumFrames(rows)).Ok? ==> ConcatFrames(DatumFrames(rows)).value == Spatialized(rows)
  {
    ConcatGroups(Map(Filter(rows, InWgs84), LocateWgs84), Map(Filter(rows, InUtm), LocateUtm));
  }

  lemma ConcatGroups(a: seq<Row>, b: seq<Row>)
    ensures ConcatFrames(Groups(a, b)).Err? <==> a + b == []
    ensures ConcatFrames(Groups(a, b)).Ok? ==> ConcatFrames(Groups(a, b)).value == a + b
  {
    var g := Groups(a, b);
    if a != [] && b != [] {
      assert g == [a, b];
      FlattenTwo(a, b);
    } else if a != [] {
      assert g == [a];
      FlattenTwo(a, []);
      assert a + b == a;
    } else if b != [] {
      assert g == [b];
      FlattenTwo(b, []);
      assert a + b == b;
    }
  }

  lemma FlattenTwo(a: seq<Row>, b: seq<Row>)
    ensures Flatten([a, b]) == a + b
    ensures Flatten([a]) == a
  {
    assert [a, b][1..] == [b] && [b][1..] == [] && [a][1..] == [];
    assert Flatten([b]) == b + Flatten([]) == b;
    assert Flatten([a]) == a + Flatten([]) == a;
  }

  /** Every located point carries the reference its latitude selects, and no
      point has latitude exactly 100. */
  lemma SpatializedByLatitude(rows: seq<Row>)
    ensures forall i :: 0 <= i < |Spatialized(rows)| ==>
      Get(Spatialized(rows)[i], ShapeColumn).Shape? &&
      (Get(Spatialized(rows)[i], ShapeColumn).g.source == Wgs84 <==> LatitudeOf(Spatialized(rows)[i]) < 100.0) &&
      Epsg(Get(Spatialized(rows)[i], ShapeColumn).g.source) == (if LatitudeOf(Spatialized(rows)[i]) < 100.0 then 4326 else 26912) &&
      Get(Spatialized(rows)[i], ShapeColumn).g.target == WebMercator &&
      LatitudeOf(Spatialized(rows)[i]) != 100.0
  {
    var wgs := Filter(rows, InWgs84);
    var utm := Filter(rows, InUtm);
    var out := Spatialized(rows);
    forall i | 0 <= i < |out|
      ensures Get(out[i], ShapeColumn).Shape?
      ensures Get(out[i], ShapeColumn).g.source == Wgs84 <==> LatitudeOf(out[i]) < 100.0
      ensures Epsg(Get(out[i], ShapeColumn).g.source) == (if LatitudeOf(out[i]) < 100.0 then 4326 else 26912)
      ensures Get(out[i], ShapeColumn).g.target == WebMercator
      ensures LatitudeOf(out[i]) != 100.0
    {
      if i < |wgs| {
        assert out[i] == LocateWgs84(wgs[i]) && wgs[i] in wgs;
        assert LatitudeOf(out[i]) == LatitudeOf(wgs[i]);
      } else {
        assert out[i] == LocateUtm(utm[i - |wgs|]) && utm[i - |wgs|] in utm;
        assert LatitudeOf(out[i]) == LatitudeOf(utm[i - |wgs|]);
      }
    }
  }

  /** The located points are the rows off the boundary and nothing else:
      together with the latitude-100 rows they account for every row with
      coordinates, each exactly once. */
  lemma DatumAccounting(rows: seq<Row>)
    ensures multiset(Filter(rows, InWgs84)) + multiset(Filter(rows, InUtm)) + multiset(Filter(rows, OnBoundary)) == multiset(rows)
    ensures |Spatialized(rows)| + |Filter(rows, OnBoundary)| == |rows|
  {
    FilterDisjointUnion(rows, InWgs84, InUtm, OffBoundary);
    FilterSplit(rows, OffBoundary, OnBoundary);
  }

  /** The missing-coordinate rows and the kept rows split the records: each
      record lands in exactly one of them. */
  lemma CoordinateSplit(rows: seq<Row>)
    ensures multiset(Filter(rows, MissingCoordinates)) + multiset(Filter(rows, HasCoordinates)) == multiset(rows)
    ensures |Filter(rows, MissingCoordinates)| + |Filter(rows, HasCoordinates)| == |rows|
  {
    FilterSplit(rows, MissingCoordinates, HasCoordinates);
  }

  /** The coordinates a datum group goes on to compare and build points from
      are numbers: `latitude < 100` on text raises, and so does a point built
      from a non-numeric longitude. */
  predicate Locatable(r: Row)
  {
    IsNumber(Get(r, Latitude)) && (OnBoundary(r) || IsNumber(Get(r, Longitude)))
  }

  predicate AllLocatable(rows: seq<Row>)
  {
    forall i :: 0 <= i < |rows| ==> Locatable(rows[i])
  }

  // ---------------------------------------------------------------------
  // Column cleanup

  const MaterialColumn := "serviceline_material_cassification"
  const MaterialColumnShort := "serviceline_material_cassificat"
  const ZipColumn := "pws_zipcode"
  const PopulationColumn := "pws_population"
  const SystemIdColumn := "system_id"

  /** `astype(str).str[:5].astype("Int64")` on one cell: the integer its first
      five characters spell, a ZIP+4 losing its extension. */
  function ZipCell(c: Cell): Result<Cell>
  {
    var text := Render(c);
    var head := text[..if |text| < 5 then |text| else 5];
    match ParseInt(head)
    case Some(v) => Ok(Int(v))
    case None => Err(NotAnInteger(head))
  }

  /** A ZIP+4 keeps its five-digit ZIP. */
  lemma ZipPlusFour()
    ensures ZipCell(Str("84093-1234")) == Ok(Int(84093))
  {
    assert Render(Str("84093-1234"))[..5] == "84093";
    Value84093();
    ParseDigits("84093");
  }

  lemma Value84093()
    ensures AllDigits("84093") && DigitsValue("84093") == 84093
  {
    assert "84093"[..4] == "8409" && "8409"[..3] == "840" && "840"[..2] == "84" && "84"[..1] == "8" && "8"[..0] == "";
  }

  /** A cleaned ZIP cleans to itself: running the cleanup twice changes nothing more. */
  lemma ZipIdempotent(c: Cell)
    requires ZipCell(c).Ok?
    ensures ZipCell(ZipCell(c).value) == ZipCell(c)
  {
    var text := Render(c);
    var head := text[..if |text| < 5 then |text| else 5];
    var v := ParseInt(head).value;
    ParseIntShrinks(head);
    assert ZipCell(c) == Ok(Int(v));
    ZipOfShortInt(v);
  }

  /** An integer written in at most five characters is its own ZIP. */
  lemma ZipOfShortInt(v: int)
    requires |Decimal(v)| <= 5
    ensures ZipCell(Int(v)) == Ok(Int(v))
  {
    DecimalRoundTrip(v);
    assert Render(Int(v)) == Decimal(v);
    assert Decimal(v)[..|Decimal(v)|] == Decimal(v);
  }

  /** A cleaned ZIP has at most five digits. */
  lemma ZipBound(c: Cell)
    requires ZipCell(c).Ok?
    ensures ZipCell(c).value.Int? && -9999 <= ZipCell(c).value.i <= 99999
  {
    var text := Render(c);
    var head := text[..if |text| < 5 then |text| else 5];
    var v := ParseInt(head).value;
    ParseIntShrinks(head);
    DecimalWidth(v);
  }

  lemma DecimalWidth(v: int)
    requires |Decimal(v)| <= 5
    ensures -9999 <= v <= 99999
  {
    if v < 0 {
      NatDigitsWidth(-v, 4);
    } else {
      NatDigitsWidth(v, 5);
    }
  }

  lemma {:induction false} NatDigitsWidth(n: nat, k: nat)
    requires |NatDigits(n)| <= k
    ensures n < Pow10(k)
  {
    if n >= 10 {
      NatDigitsWidth(n / 10, k - 1);
    }
  }

  /** No column is listed twice. */
  predicate DistinctColumns(cols: seq<string>)
  {
    forall i, j :: 0 <= i < j < |cols| ==> cols[i] != cols[j]
  }

  /** `switch_to_nullable_int` on each listed column in turn; a missing
      column or a refused cell fails the whole conversion. Columns not listed
      keep their cells. For distinct columns each listed cell holds its
      conversion, and the conversion fails exactly when a listed column is
      missing or one of its cells is refused. */
  function ToNullableInts(t: Table, cols: seq<string>, toNullableInt: Cell -> Result<Cell>): (r: Result<Table>)
    ensures r.Ok? ==> r.value.columns == t.columns && |r.value.rows| == |t.rows|
    ensures r.Ok? ==> forall c :: c in cols ==> c in t.columns
    ensures r.Ok? ==> forall i, c :: 0 <= i < |t.rows| && c !in cols ==> Get(r.value.rows[i], c) == Get(t.rows[i], c)
    ensures DistinctColumns(cols) ==>
      (r.Ok? <==> (forall c :: c in cols ==> c in t.columns) &&
                  forall i, c :: 0 <= i < |t.rows| && c in cols ==> toNullableInt(Get(t.rows[i], c)).Ok?)
    ensures DistinctColumns(cols) && r.Ok? ==>
      forall i, c :: 0 <= i < |t.rows| && c in cols ==>
        toNullableInt(Get(t.rows[i], c)).Ok? && Get(r.value.rows[i], c) == toNullableInt(Get(t.rows[i], c)).value
    ensures DistinctColumns(cols) && r.Err? ==>
      (exists c :: c in cols && c !in t.columns && r.error == MissingColumn(c)) ||
      exists i, c :: 0 <= i < |t.rows| && c in cols && toNullableInt(Get(t.rows[i], c)) == Err(r.error)
    decreases |cols|
  {
    if cols == [] then Ok(t)
    else if cols[0] !in t.columns then Err(MissingColumn(cols[0]))
    else
      match ConvertColumn(t.rows, cols[0], cols[0], toNullableInt)
      case Err(e) =>
        var i :| 0 <= i < |t.rows| && toNullableInt(Get(t.rows[i], cols[0])) == Err(e);
        assert cols[0] in cols;
        Err(e)
      case Ok(rows) =>
        var r := ToNullableInts(Table(t.columns, rows), cols[1..], toNullableInt);
        assert forall c :: c in cols[1..] ==> c in cols;
        assert forall i, c :: 0 <= i < |t.rows| && c != cols[0] ==> Get(rows[i], c) == Get(t.rows[i], c);
        assert DistinctColumns(cols) ==> DistinctColumns(cols[1..]) && cols[0] !in cols[1..] by {
          if DistinctColumns(cols) {
            forall c | c in cols[1..] ensures c != cols[0] {
              var j :| 0 <= j < |cols[1..]| && cols[1..][j] == c;
              assert cols[j + 1] == c;
            }
          }
        }
        assert forall c :: c in cols ==> c == cols[0] || c in cols[1..];
        r
  }

  /** The cleanup's conversion of the population and system-id columns: it
      succeeds exactly when both columns exist and every one of their cells
      converts, and then each holds its converted cells. */
  lemma CountColumnsConverted(t: Table, toNullableInt: Cell -> Result<Cell>)
    ensures var r := ToNullableInts(t, [PopulationColumn, SystemIdColumn], toNullableInt);
      (r.Ok? <==> PopulationColumn in t.columns && SystemIdColumn in t.columns &&
                  forall i :: 0 <= i < |t.rows| ==>
                    toNullableInt(Get(t.rows[i], PopulationColumn)).Ok? && toNullableInt(Get(t.rows[i], SystemIdColumn)).Ok?) &&
      (r.Ok? ==> forall i :: 0 <= i < |t.rows| ==>
        Get(r.value.rows[i], PopulationColumn) == toNullableInt(Get(t.rows[i], PopulationColumn)).value &&
        Get(r.value.rows[i], SystemIdColumn) == toNullableInt(Get(t.rows[i], SystemIdColumn)).value)
  {
    var cols := [PopulationColumn, SystemIdColumn];
    assert DistinctColumns(cols);
    assert PopulationColumn in cols && SystemIdColumn in cols;
    assert forall c :: c in cols ==> c == PopulationColumn || c == SystemIdColumn;
  }

  // ---------------------------------------------------------------------
  // The point pipeline's state

  class PointData {
    var records: Table
    var spatialRecords: Table
    var missingCoords: Table

    constructor ()
      ensures records == EmptyTable && spatialRecords == EmptyTable && missingCoords == EmptyTable
    {
      records := EmptyTable;
      spatialRecords := EmptyTable;
      missingCoords := EmptyTable;
    }

    /** Requests pages at offsets 0, limit, 2 * limit, ... until a page is not
        full, and keeps every record received, in order. `requested` lists the
        offsets asked for. An error raised by a request leaves `records` as it
        was. The endpoint must eventually answer with a page that is not full
        (or raise): against one that always fills the page the loop does not end. */
    method LoadRecordsFromGraphql(endpoint: Endpoint, limit: int) returns (outcome: Outcome, requested: seq<int>)
      requires exists k: nat :: EndsAt(endpoint, limit, k)
      modifies this`records
      ensures requested == Offsets(limit, LastRequest(endpoint, limit) + 1)
      ensures endpoint(LastRequest(endpoint, limit) * limit).RequestError? ==>
        outcome == Fail(RequestFailed(LastRequest(endpoint, limit) * limit)) && records == old(records)
      ensures endpoint(LastRequest(endpoint, limit) * limit).Page? ==>
        var all := Received(endpoint, limit, LastRequest(endpoint, limit) + 1);
        outcome == Pass && records == Table(ColumnsOf(all), all)
    {
      ghost var stop := LastRequest(endpoint, limit);
      ghost var i: nat := 0;
      var resultLength := limit;
      var offset := 0;
      var recordsList: seq<Row> := [];
      requested := [];
      while resultLength == limit
        invariant i <= stop + 1
        invariant offset == i * limit
        invariant requested == Offsets(limit, i)
        invariant recordsList == Received(endpoint, limit, i)
        invariant resultLength == limit <==> i <= stop
        invariant i > stop ==> endpoint(stop * limit).Page?
        decreases stop + 1 - i
      {
        var response := endpoint(offset);
        requested := requested + [offset];
        assert requested == Offsets(limit, i + 1);
        if response.RequestError? {
          assert EndsAt(endpoint, limit, i);
          assert i == stop;
          assert offset == LastRequest(endpoint, limit) * limit;
          assert endpoint(LastRequest(endpoint, limit) * limit).RequestError?;
          outcome := Fail(RequestFailed(offset));
          return;
        }
        resultLength := |response.records|;
        offset := offset + limit;
        recordsList := recordsList + response.records;
        i := i + 1;
        assert resultLength == limit <==> !EndsAt(endpoint, limit, i - 1);
      }
      records := Table(ColumnsOf(recordsList), recordsList);
      outcome := Pass;
    }

    /** Moves the rows missing a coordinate to `missingCoords`, keeps the rest
        in `records`, and builds `spatialRecords` from them: the WGS84 points,
        then the UTM points, each with its SHAPE. A missing coordinate column,
        a coordinate that is no number, or no row in either group makes it
        fail, keeping what was assigned before. */
    method SpatializePointData() returns (outcome: Outcome)
      modifies this
      ensures Latitude !in old(records.columns) ==>
        outcome == Fail(MissingColumn(Latitude)) && unchanged(this)
      ensures Latitude in old(records.columns) && Longitude !in old(records.columns) ==>
        outcome == Fail(MissingColumn(Longitude)) && unchanged(this)
      ensures Latitude in old(records.columns) && Longitude in old(records.columns) ==>
        missingCoords == Table(old(records.columns), Filter(old(records.rows), MissingCoordinates)) &&
        records == Table(old(records.columns), Filter(old(records.rows), HasCoordinates))
      ensures Latitude in old(records.columns) && Longitude in old(records.columns) &&
        !AllLocatable(records.rows)
        ==> outcome == Fail(NotANumber) && spatialRecords == old(spatialRecords)
      ensures Latitude in old(records.columns) && Longitude in old(records.columns) &&
        AllLocatable(records.rows) && Spatialized(records.rows) == []
        ==> outcome == Fail(NoObjectsToConcatenate) && spatialRecords == old(spatialRecords)
      ensures outcome == Pass <==>
        Latitude in old(records.columns) && Longitude in old(records.columns) &&
        AllLocatable(records.rows) && Spatialized(records.rows) != []
      ensures outcome == Pass ==>
        spatialRecords == Table(records.columns + {ShapeColumn}, Spatialized(records.rows))
    {
      if Latitude !in records.columns {
        outcome := Fail(MissingColumn(Latitude));
      } else if Longitude !in records.columns {
        outcome := Fail(MissingColumn(Longitude));
      } else {
        missingCoords := Table(records.columns, Filter(records.rows, MissingCoordinates));
        records := Table(records.columns, Filter(records.rows, HasCoordinates));
        if !AllLocatable(records.rows) {
          outcome := Fail(NotANumber);
        } else {
          var frames := DatumFrames(records.rows);
          var concatenated := ConcatFrames(frames);
          ConcatDatumFrames(records.rows);
          if concatenated.Err? {
            outcome := Fail(concatenated.error);
          } else {
            spatialRecords := Table(records.columns + {ShapeColumn}, concatenated.value);
            outcome := Pass;
          }
        }
      }
    }

    /** Shortens the material column's name, cuts every ZIP to its first five
        characters read as an integer, and converts the population and
        system id columns with `toNullableInt`, the conversion the shared
        cleaning library applies. A step that raises leaves the earlier steps
        applied. */
    method CleanPointData(toNullableInt: Cell -> Result<Cell>) returns (outcome: Outcome)
      modifies this`spatialRecords
      ensures var renamed := RenameColumn(old(spatialRecords), MaterialColumn, MaterialColumnShort);
        var zips := ConvertColumn(renamed.rows, ZipColumn, ZipColumn, ZipCell);
        if ZipColumn !in renamed.columns then
          outcome == Fail(MissingColumn(ZipColumn)) && spatialRecords == renamed
        else if zips.Err? then
          outcome == Fail(zips.error) && spatialRecords == renamed
        else
          var zipped := Table(renamed.columns, zips.value);
          var converted := ToNullableInts(zipped, [PopulationColumn, SystemIdColumn], toNullableInt);
          if converted.Err? then outcome == Fail(converted.error) && spatialRecords == zipped
          else outcome == Pass && spatialRecords == converted.value
      ensures |spatialRecords.rows| == |old(spatialRecords.rows)|
    {
      spatialRecords := RenameColumn(spatialRecords, MaterialColumn, MaterialColumnShort);
      if ZipColumn !in spatialRecords.columns {
        return Fail(MissingColumn(ZipColumn));
      }
      var zips := ConvertColumn(spatialRecords.rows, ZipColumn, ZipColumn, ZipCell);
      if zips.Err? {
        return Fail(zips.error);
      }
      spatialRecords := Table(spatialRecords.columns, zips.value);
      var converted := ToNullableInts(spatialRecords, [PopulationColumn, SystemIdColumn], toNullableInt);
      if converted.Err? {
        return Fail(converted.error);
      }
      spatialRecords := converted.value;
      outcome := Pass;
    }
  }
}
