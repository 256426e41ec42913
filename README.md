# lsli-skid, modelled in Dafny

The lsli-skid job publishes Utah's lead-service-line data to ArcGIS Online.
This project models the data-handling core of `src/lsli/main.py` and proves
properties of it. That core is two classes.

- `PointData` pages service-line records out of a GraphQL endpoint. It sets
  aside the records that lack a coordinate and places the rest in WGS84 or
  UTM NAD83 by their latitude. It then shortens a column name, cuts ZIP codes
  to five digits and converts two columns to nullable integers.
- `GoogleSheetData` reconciles approved water systems (a Google sheet whose
  real header is its second row) with interactive-map links (a second sheet)
  and the service-area layer. It normalises the PWSID (public water system
  id) of every input. It reports ids without a digit and PWSIDs that occur
  more than once among the links. It keeps each system's most recent
  approval and the last link of each PWSID. It then left-joins both onto
  the areas, reports the systems without an area and renames the columns
  for ArcGIS Online.

The model follows the source's shape. The two classes are Dafny classes whose
methods reassign their fields step by step, like the Python methods. Each
method's `ensures` states the new state as a function of the old state. That
includes the partial state a failing step leaves behind: a pandas call that
raises becomes `Fail(...)`, with every earlier assignment still in place.
The pandas operations are pure functions on a `Table`, which is a set of
column names plus a sequence of rows mapping names to cells. Lemmas prove
what those functions promise.

The same structure is in every file:

| File | What it models |
|---|---|
| `seqs.dfy` | row masks, keep-last deduplication, occurrence counts, dictionaries built row by row |
| `text.dfy` | `str.lower`, `str.strip`, `int()` and `str()` |
| `frames.dfy` | the frame operations |
| `pwsid.dfy` | id normalisation |
| `recency.dfy` | sort then keep the last row |
| `approved.dfy`, `links.dfy` | the two sheets |
| `join.dfy`, `areas.dfy` | the left join and the layer |
| `agol.dfy` | the AGOL renaming |
| `points.dfy`, `sheets.dfy` | the two classes |

External services become parameters:

- An `Endpoint` stands for the GraphQL client. It is a function from offset to page, and it can also raise.
- A `Grid` stands for a worksheet.
- A `Table` stands for the feature layer.
- `parseTime` stands for `pd.to_datetime`, `toNullableInt` for palletjack's `switch_to_nullable_int`, and `agolName` for `rename_columns_for_agol`.

## Model

| member | source | states |
|---|---|---|
| Points.ReceivedFullPages | src/lsli/main.py:251-256 | every page before the one that ends the loop is full, so those pages give exactly `n * limit` records |
| Points.FourRecords | tests/test_lsli.py:35-53 | pages of two, two and zero records end the loop at the third request and give the four records in order |
| Points.FiveRecords | tests/test_lsli.py:60-79 | pages of two, two and one records end at the third request and give the five records in order |
| Points.SlicedServer | src/lsli/main.py:247-258 | against a server that pages through a table, the loop makes `len / limit + 1` requests and receives the whole table, in order, each record once; an exact multiple of `limit` ends with an empty page |
| Points.PointData.constructor | src/lsli/main.py:225-228 | all three frames start empty |
| Points.PointData.LoadRecordsFromGraphql | src/lsli/main.py:247-258 | the requested offsets are 0, limit, 2·limit, … up to and including the first request whose page is not full; `records` is every received record in request order, with the columns the records carry; a request that raises leaves `records` as it was |
| Points.CoordinateSplit | src/lsli/main.py:270-273 | the rows missing a coordinate and the rows with both coordinates partition the records (as a multiset and by count) |
| Points.DatumFramesNonEmpty | src/lsli/main.py:277-295 | no empty group is appended to the list handed to the concatenation |
| Points.ConcatDatumFrames | src/lsli/main.py:275-297 | concatenating the groups fails exactly when both groups are empty; otherwise it gives every WGS84 row and then every UTM row, each group in input order |
| Points.SpatializedByLatitude | src/lsli/main.py:277-295 | every located point has a SHAPE; it is built in WGS84 (EPSG 4326) exactly when its latitude is below 100, otherwise in UTM NAD83 (EPSG 26912); every point is projected to Web Mercator (EPSG 3857); no point has latitude exactly 100 |
| Points.DatumAccounting | src/lsli/main.py:277-297 | the WGS84 rows, the UTM rows and the latitude-100 rows partition the rows with coordinates; the output loses exactly the latitude-100 rows |
| Points.PointData.SpatializePointData | src/lsli/main.py:270-299 | a missing coordinate column raises and changes nothing; otherwise `missingCoords` holds exactly the rows with a null coordinate and `records` the others, both in order; a non-numeric coordinate raises; no row in either group raises at the concatenation; otherwise `spatialRecords` is the located WGS84 rows then the UTM rows, with SHAPE added |
| Points.ZipPlusFour | src/lsli/main.py:309 | "84093-1234" becomes 84093 |
| Points.ZipIdempotent | src/lsli/main.py:309 | cleaning a cleaned ZIP gives the same ZIP |
| Points.ZipBound | src/lsli/main.py:309 | a cleaned ZIP is an integer written in at most five characters |
| Points.ToNullableInts | src/lsli/main.py:311-313 | other columns and the row count are kept; for distinct listed columns it succeeds exactly when every listed column exists and every one of its cells converts, each listed cell then holds its conversion, and a failure is a missing listed column or the conversion's own error on one of its cells |
| Points.CountColumnsConverted | src/lsli/main.py:311-313 | the cleanup's conversion succeeds exactly when the population and system-id columns exist and all their cells convert; both columns then hold their converted cells |
| Points.PointData.CleanPointData | src/lsli/main.py:304-313 | the material column is renamed; the ZIP column becomes the integer of its first five characters; the two count columns are converted; each step that raises leaves the earlier steps applied; the row count never changes |
| Frames.ColumnsOf | src/lsli/main.py:258 | the columns of `pd.DataFrame(records)` are exactly the keys that some record has |
| Frames.ReplaceBlanks | src/lsli/main.py:357 | same columns and rows; every empty-text cell becomes null; every other cell is kept |
| Frames.Select | src/lsli/main.py:364-366 | succeeds iff every listed column exists; the result holds exactly the listed columns with the same cells; otherwise it names a missing listed column |
| Frames.Project | src/lsli/main.py:423 | the result has exactly the given columns, the same number of rows, and the same cells in those columns |
| Frames.RenameColumn | src/lsli/main.py:381 | an absent column leaves the frame alone; otherwise the new name holds the old column's cells, the old name reads as null, and other cells are kept |
| Frames.ConvertColumn | src/lsli/main.py:369 | succeeds iff the conversion accepts every cell; each row then holds the converted cell; a failure is one of the conversion's own errors |
| Frames.ConvertTwo | src/lsli/main.py:379-380 | both conversions applied row by row; success iff both accept every row |
| Frames.SetColumn | src/lsli/main.py:382 | every row holds the given value in the column; other cells are kept |
| Frames.DropNulls | src/lsli/main.py:364 | the rows kept are exactly those with a value in the column, every copy of each, in input order (the mask `Filter` keeps); a missing column raises |
| Frames.DropNullsAccounting | src/lsli/main.py:364 | the kept rows and the rows with a null in the column make up the frame, copy for copy and by count |
| Frames.Concat | src/lsli/main.py:443 | a column is in the result iff it is in either frame; the result has as many rows as both frames together, the first frame's rows at its positions and the second's after them |
| Frames.ConcatOccurrences | src/lsli/main.py:443 | nothing is deduplicated, not even across the two frames: every key (the PWSID in particular) occurs in the result as often as in both frames together |
| Seqs.OccurrencesAppend | src/lsli/main.py:443 | the number of elements with a key in two sequences in a row is the sum of the two counts |
| Frames.DropColumns | src/lsli/main.py:468 | succeeds iff every listed column exists; the listed columns are removed and all other cells kept |
| Seqs.Filter | src/lsli/main.py:270 | a boolean mask keeps exactly the elements it selects, in order, never more than the input holds |
| Seqs.FilterSplit | src/lsli/main.py:370-376 | a mask and its negation partition the input |
| Seqs.FilterDisjointUnion | src/lsli/main.py:277-287 | two disjoint masks together select what their union selects |
| Seqs.KeepLast | src/lsli/main.py:420 | `drop_duplicates(keep="last")` keeps a sub-multiset of the input |
| Seqs.KeepLastUnique | src/lsli/main.py:420 | no key survives twice |
| Seqs.KeepLastCovers | src/lsli/main.py:420 | every key of the input survives |
| Seqs.KeepLastPicksLast | src/lsli/main.py:420 | each survivor is the last element with its key |
| Seqs.OccurrencesTwo | src/lsli/main.py:411 | `duplicated(keep=False)` marks exactly the keys found at two positions |
| Seqs.DictKeys | src/lsli/main.py:418 | a dict built row by row has exactly the keys of the rows |
| Seqs.DictLast | src/lsli/main.py:448-451 | it holds the value of the last row with each key |
| Text.Lower | src/lsli/main.py:379 | same length; each upper-case ASCII letter becomes its lower-case letter; no upper-case letter is left; every other character is kept; digits stay exactly where they were |
| Text.StripLeft | src/lsli/main.py:379 | removes the longest leading run of stripped characters |
| Text.StripRight | src/lsli/main.py:379 | removes the longest trailing run of stripped characters |
| Text.StripRemovesOnly | src/lsli/main.py:379 | stripping keeps every character outside the stripped set |
| Text.StrippedFrom | src/lsli/main.py:379 | whatever stripping leaves comes from the input |
| Text.StripKeeps | src/lsli/main.py:379 | stripping letters keeps every digit, in order |
| Text.ParseIntNeedsDigit | src/lsli/main.py:379 | `int()` succeeds only on text that holds a digit |
| Text.ParseIntRejects | src/lsli/main.py:379 | text that starts with something other than whitespace, a digit or a sign is no integer |
| Text.ParseDigits | src/lsli/main.py:379 | a digit string reads as its decimal value |
| Text.DecimalRoundTrip | src/lsli/main.py:309 | reading back what `str()` writes for an integer gives that integer |
| Text.ParseIntShrinks | src/lsli/main.py:309 | the integer read from some text is written in no more characters than that text |
| Pwsid.NormalizeId | src/lsli/main.py:379 | a normalised id is a 64-bit integer |
| Pwsid.NormalizeNeedsDigit | src/lsli/main.py:370-379 | an id without a digit never normalises |
| Pwsid.NormalizeKeepsDigits | src/lsli/main.py:379 | lower-casing and stripping letters keeps exactly the id's digits, in order |
| Pwsid.PrefixedId | src/lsli/main.py:379 | any prefix of stripped letters, in any case, followed by digits normalises to the digits' value |
| Pwsid.SheetIdExample | src/lsli/main.py:379 | "Utah1234" normalises to 1234 with the sheet letters |
| Pwsid.LayerIdExample | src/lsli/main.py:436 | "UTAHZ1234" normalises to 1234 with the layer letters |
| Pwsid.LayerIdNeedsZ | src/lsli/main.py:379 | with the sheet letters "UTAHZ1234" keeps its "z" and does not normalise |
| Pwsid.NormalizeCellSound | src/lsli/main.py:409 | a cell that normalises was text with a digit and becomes an in-range integer |
| Recency.InsertByTime | src/lsli/main.py:385 | inserting keeps the multiset and only adds the inserted row |
| Recency.InsertSorted | src/lsli/main.py:385 | inserting into time order keeps time order |
| Recency.SortByTime | src/lsli/main.py:385 | `sort_values("submitted_time")` is a permutation in time order, with NaT last |
| Recency.SortMembers | src/lsli/main.py:385 | sorting neither adds nor loses a row |
| Recency.LatestPerId | src/lsli/main.py:385-387 | the survivors are input rows, with no row duplicated |
| Recency.LatestUnique | src/lsli/main.py:385-387 | no PWSID survives twice |
| Recency.LatestCovers | src/lsli/main.py:385-387 | every PWSID of the input survives |
| Recency.LatestIsNewest | src/lsli/main.py:385-387 | each survivor is at least as recent as every row with its PWSID |
| Recency.LastWithIsMax | src/lsli/main.py:385-387 | in time order the last row with a PWSID is the newest one |
| Approved.ApprovedText | src/lsli/main.py:364-369 | succeeds iff all five sheet columns exist; a failure names a missing one; one row per sheet row with an id |
| Approved.ApprovedTextCells | src/lsli/main.py:364-369 | each kept row is the matching sheet row with an id, in order: its id as text, its time and its carried cells unchanged |
| Approved.InvalidIds | src/lsli/main.py:370-375 | every reported id has no digit; one is reported per such row |
| Approved.InvalidIdsListed | src/lsli/main.py:370-375 | the report is the id text of exactly the rows with an id and no digit, in sheet order |
| Approved.ValidRows | src/lsli/main.py:371-376 | the rows kept for conversion are exactly those whose id has a digit, whichever branch runs |
| Approved.ApprovedAccounting | src/lsli/main.py:364-376 | every row with an id is either reported or becomes a candidate |
| Approved.ConvertedRows | src/lsli/main.py:379-380 | succeeds iff every id normalises and every time parses; a failure is a bad id or a bad time |
| Approved.ConvertedCells | src/lsli/main.py:379-380 | each converted row holds the normalised id, the parsed time and its carried cells |
| Approved.Relabel | src/lsli/main.py:381-382 | the columns are renamed to PWSID and submitted_time, and every row is marked "Approved System" |
| Approved.ApprovedCells | src/lsli/main.py:379-382 | each candidate row holds the normalised id, the parsed time, the area type and the carried cells of its valid row |
| Approved.ApproveSystems | src/lsli/main.py:364-387 | a failed selection reports nothing and fails; otherwise the cleaned frame exists iff conversion succeeds, with the cleaned columns |
| Approved.CandidateOrigin | src/lsli/main.py:364-382 | every candidate comes from a sheet row with an id holding a digit, whose normalised id it carries |
| Approved.ValidOrigin | src/lsli/main.py:364-376 | every valid row is a sheet row with such an id, its id as text |
| Approved.ApprovedSurvivors | src/lsli/main.py:385-387 | the survivors are candidates; no PWSID survives twice; each survivor is the most recent with its PWSID; every candidate PWSID survives |
| Links.DuplicateReportKeys | src/lsli/main.py:411-418 | the report names exactly the systems of rows whose PWSID occurs at least twice |
| Links.DuplicateReportValues | src/lsli/main.py:418 | each name maps to the PWSID of the last duplicated row with that name, and that PWSID occurs twice |
| Links.LinkTable | src/lsli/main.py:420-423 | the cleaned links have exactly the columns PWSID, System Name, link and area_type |
| Links.LinkTableCells | src/lsli/main.py:420-423 | each cleaned link holds the PWSID, name and map link of its kept row, with area type "Link" |
| Links.LinksKept | src/lsli/main.py:420-423 | every link is "Link"; no PWSID occurs twice; every PWSID of the sheet has a link; each link is built from the last row with its PWSID |
| Areas.RealAreas | src/lsli/main.py:434 | the areas kept are exactly those whose system number is not the placeholder " ", every copy of each, in layer order (the mask `Filter` keeps); without the column it raises |
| Areas.AreasAccounting | src/lsli/main.py:434 | dropping placeholders loses no other area |
| Areas.AreaIds | src/lsli/main.py:435-437 | the PWSID column is added and every other cell kept |
| Areas.AreaIdsNormalised | src/lsli/main.py:435-437 | succeeds iff every system number normalises with the layer letters, giving each area that PWSID; a failure is a bad integer |
| Join.LeftJoin | src/lsli/main.py:445 | the merge succeeds iff both sides have the key and no suffix clashes; a failure says which; the output has the suffixed columns |
| Join.JoinRowCells | src/lsli/main.py:445 | a joined row keeps the left key and the right row's marker |
| Join.UnmatchedRows | src/lsli/main.py:445-446 | the joined rows with no marker are exactly the unmatched left rows, each kept once |
| Join.MatchedRows | src/lsli/main.py:445-456 | the joined rows with a marker are exactly the matched pairs |
| Join.UnmatchedKeys | src/lsli/main.py:445-446 | those rows carry exactly the keys of the unmatched left rows |
| Join.MatchedRowsHaveMatch | src/lsli/main.py:445-456 | every row with a marker carries a right row's key and marker, and its key is no unmatched row's key |
| Join.UniqueRightKeys | src/lsli/main.py:445 | with unique right keys every left row gives exactly one output row |
| Areas.MissingReportContents | src/lsli/main.py:446-451 | the report's keys are exactly the PWSIDs of systems no area matches; each value is the name, size and area type of a joined row without an area that has that PWSID |
| Areas.ReportEntries | src/lsli/main.py:448-451 | a report keyed by PWSID has the rows' PWSIDs, each with one of those rows' values |
| Areas.KeptRowsMatched | src/lsli/main.py:446-456 | every kept row has an area with its PWSID and FID; no reported PWSID reaches the kept rows |
| Areas.MergeCounts | src/lsli/main.py:443-456 | with one area per PWSID, kept rows number the matched systems and unreported rows the unmatched ones |
| Agol.ShapeNameKept | src/lsli/main.py:462-466 | no renamed column takes the name SHAPE |
| Agol.RenameForAgol | src/lsli/main.py:462-467 | succeeds iff SHAPE exists; otherwise it raises on the pop; each column gets its new name and keeps its cells |
| Agol.AgolColumns | src/lsli/main.py:462-468 | the published frame keeps SHAPE and every row; every other column is lower case and holds the cells it was renamed from; the area and length columns are gone |
| Sheets.RowOfCell | src/lsli/main.py:348-350 | under a header name that no later column repeats, a loaded row holds that column's cell |
| Sheets.GridTable | src/lsli/main.py:348-350 | the loaded frame has the header's names as columns and one row per sheet row |
| Sheets.GridTableCells | src/lsli/main.py:348-350 | each loaded row holds, under each name, the sheet cell of that column |
| Sheets.Promote | src/lsli/main.py:354-356 | promoting the first row fails exactly when the sheet has no row to promote |
| Sheets.PromotedSystems | src/lsli/main.py:354-357 | the second sheet row names the columns; one row per sheet row below it; each cell is the sheet's, with empty text read as null; no cell is empty text |
| Sheets.GoogleSheetData.constructor | src/lsli/main.py:319-341 | every frame and report starts empty |
| Sheets.GoogleSheetData.LoadSystemsFromSheet | src/lsli/main.py:343-357 | a sheet with no second row fails after loading; otherwise `systems` is the promoted frame with blanks as null |
| Sheets.GoogleSheetData.CleanApprovedSystems | src/lsli/main.py:359-387 | `cleanedSystems` and the invalid-id report are those of `ApproveSystems` on the old `systems`; the report is assigned only when it is not empty; a failing step leaves `cleanedSystems` as it was |
| Sheets.GoogleSheetData.LoadSystemLinksFromGsheet | src/lsli/main.py:389-396 | `links` is the sheet as loaded |
| Sheets.GoogleSheetData.CleanSystemLinks | src/lsli/main.py:398-423 | blanks become null; rows without a PWSID are dropped; three columns are kept; ids are normalised; the name column is renamed; the duplicate report is assigned only when there are duplicates; the cleaned links are `LinkTable` of the renamed frame; a failure leaves the earlier steps in `links` |
| Sheets.GoogleSheetData.LoadSystemGeometries | src/lsli/main.py:425-437 | the areas are the layer without placeholders, with a normalised PWSID; a failure leaves the state each step left |
| Sheets.GoogleSheetData.MergeSystemsAndGeometries | src/lsli/main.py:439-456 | the systems followed by the links are left-joined to the areas; the rows with no FID are reported by PWSID, only when there are any; `finalSystems` is the rows with an FID; a failing merge or a missing column changes neither field |
| Sheets.GoogleSheetData.CleanDataframeForAgol | src/lsli/main.py:458-468 | `finalSystems` is renamed and then loses the area and length columns; a missing SHAPE fails unchanged; a missing dropped column fails after the rename |

## Left out

- Secrets, logging, the SendGrid supervisor, the temporary directory, the summary e-mail and `process` (main.py lines 36-221) are I/O plumbing and are not part of this model.
- The GraphQL transport, the sheet loader and `FeatureLayer.query` are network calls. The loaders take the endpoint, the grid or the layer as a parameter.
- The constructor's credentials and sheet ids only reach those network calls, so the model drops them.
- Geometry construction and reprojection (`points_from_xy`, `to_crs(3857)`, `rename_geometry`, `from_geodataframe`) are floating point inside geopandas and arcgis. A point is a value tagged with its source reference, the EPSG code it is projected to (always `Frames.WebMercator`, 3857) and its unprojected coordinates.
- Points.PointData.SpatializePointData: when the records already hold a SHAPE column, `rename_geometry("SHAPE", inplace=True)` raises ValueError. The model instead overwrites that column with the point.
- Points.Locatable: a longitude held as numeric text (such as "-111.9") is refused with NotANumber. `points_from_xy` reads x through a float64 array, so the source would locate that row. Parsing decimal text is not modelled.
- Text.ParseInt: refuses a single underscore between digits, which Python's `int()` and NumPy's object-to-integer cast accept. So an id such as "utah1_234", which the source reads as 1234, fails here with NotAnInteger. This affects Pwsid.NormalizeId and every lemma built on it. Non-ASCII digits and whitespace are refused too.
- Approved.InvalidIds: the digit test is ASCII only. The source's `\d` matches any Unicode decimal digit, and `int()` accepts those digits. So an id such as "Utah１２３４" (fullwidth digits), which the source keeps as 1234, is reported as invalid here and dropped. Approved.ValidRows and Pwsid.NormalizeNeedsDigit use the same ASCII test.
- Points.PointData.LoadRecordsFromGraphql: requires that some request returns a page shorter than `limit`. Against a server that always fills the page, the loop at main.py lines 251-256 never ends, and the model does not cover that case.
- `pd.to_datetime`, `switch_to_nullable_int` and `rename_columns_for_agol` are library code. Each is an uninterpreted parameter: `parseTime`, `toNullableInt` and `agolName`. A timestamp is an integer.
- Recency.LatestIsNewest: it does not say which of several equally recent rows survives, because the default `sort_values` is not stable.
- Areas.MissingReportContents: the value reported for a PWSID with several rows is stated as "one of its rows", not as a particular one. The rows are sorted by PWSID, with an unstable sort, before the dict is built.
- Sheets.GoogleSheetData.CleanApprovedSystems: `Recency.SortByTime` is a stable insertion sort, so the ensures fix one outcome of a tie. Among rows with the same PWSID and the same `submitted_time`, the one latest in sheet order survives. The source's default `sort_values` is unstable and may keep any of them. The tie-free facts the source does promise (unique, newest, covering, drawn from the candidates) are in Approved.ApprovedSurvivors.
- Sheets.GoogleSheetData.MergeSystemsAndGeometries: MissingReport builds the dict in join order and leaves out the `sort_values(by="PWSID")` that comes first. So the ensures fix the reported value for a PWSID unmatched several times to its last row in join order, which is a link row when the PWSID is also unmatched among the approved systems. The source's unstable sort may report any of those rows. The tie-free facts are in Areas.MissingReportContents.
- GoogleSheetData's report fields are class-level mutable defaults in the source. Here they are per-instance fields that start empty. Only their observable behaviour is kept: they are assigned only when non-empty.
- Column order is not modelled, because a frame's columns are a set. With it goes most of what duplicate column names do:
  - Sheets.GridTable: where a sheet repeats a header name, only the last such column is kept. pandas keeps both.
  - Agol.RenameForAgol and Sheets.GoogleSheetData.CleanDataframeForAgol: both require that no two columns get the same AGOL name.
  - Join.LeftJoin: where both sides produce one output name, the right side's cell wins.
- `str()` of a float, a timestamp or a geometry is rendered only as far as the ids and ZIPs need.
- The tests call `_load_records_from_graphql` and `_spatialize_data`, which main.py no longer has, and they test `>= 100` for UTM. The model follows `main.py`: `> 100`, with a row at exactly 100 in neither group.
- Where the code and its stated intent differ, the model follows the code:
  - a null ZIP is written as "None" and fails the `Int64` cast;
  - a row without a time sorts last, so it wins the approved deduplication.
