# valhalla_experiments: trace loading, query building and match reporting

The repository is one script, `valhalla_experiments.py`, that reads a GPS trace
from a tab-separated file, builds a map-matching request for the Valhalla
engine, sends it to the engine's trace-attributes operation and turns the
matched points of the answer into a table and an accuracy figure. This project
models the three local steps around the engine call and proves what each one
does:

- **Trace loading** (`read_gps_data`, module `GpsTrace`). The file is a
  sequence of lines. The first line is the header and is dropped. Each later
  line is stripped of surrounding whitespace (the full set of characters
  Python's `str.isspace` accepts), split on tabs, and loses its first two
  fields. Every remaining field is converted by `float`. `float` is a
  parameter `parse: string -> Option<real>` that yields `None` where Python
  raises `ValueError`. The first field that fails ends the whole read with
  `NotANumber(field)`. The loader is a method with a loop, proved against the
  function `ReadTrace`. Python's `str.strip` and `str.split(sep)` are modelled
  in module `PyStrings`, with `Join` as the inverse of `Split`.
- **Query building** (`create_query`, module `MatchQuery`). A pure function.
  It passes `costing` (default `"auto"`) and `shape_match` (default
  `"walk_or_snap"`) through unchanged. It always sets the same five filter
  attributes with action `"include"`. It maps each trace entry to
  `{lat: pt[0], lon: pt[1]}`. An entry with fewer than two numbers makes
  Python raise `IndexError`; here it gives `Err(IndexOutOfRange(i))` for the
  first such entry.
- **Response parsing** (`parse_response`, module `MatchReport`). The loop is
  the method `ScanMatchedPoints`. It counts every point and skips points of
  type `"unmatched"`. For every other point it appends the row
  `[lon, lat, edge_index, distance_along_edge, distance_from_trace_point, type]`
  and counts it. `ParseResponse` then divides the two counters. With no points
  Python raises `ZeroDivisionError`; here that is `Err(ZeroDivision)`, and no
  table is produced, as in the script.

Details of the script that the model keeps as written:

- Every field from the third column on is converted, not only latitude and longitude.
  A line with more columns gives a longer entry. `create_query` uses only the first two numbers.
- A line with fewer than three fields gives an empty entry. That entry converts, and then
  makes `create_query` fail.
- `strip()` also removes tabs. A line whose first column is empty therefore has its columns
  shifted (`EmptyFirstColumnShifts`).

## Model

| member | source | states |
|---|---|---|
| `PyStrings.StripStart` | valhalla_experiments.py:17 | `lstrip()`; `StripStartSpec` proves it drops exactly the longest all-whitespace prefix |
| `PyStrings.StripEnd` | valhalla_experiments.py:17 | `rstrip()`; `StripEndSpec` proves it drops exactly the longest all-whitespace suffix |
| `PyStrings.Strip` | valhalla_experiments.py:17 | `strip()` as `rstrip` after `lstrip`; `StripTrimmed`, `StripPadding`, `StripTrailing` and `StripIdempotent` pin it down |
| `PyStrings.StripStartSpec` | valhalla_experiments.py:17 | `lstrip` removes the longest all-whitespace prefix and nothing more: the result is a suffix that does not start with whitespace |
| `PyStrings.StripEndSpec` | valhalla_experiments.py:17 | `rstrip` removes the longest all-whitespace suffix and nothing more |
| `PyStrings.StripTrimmed` | valhalla_experiments.py:17 | what `strip()` keeps has no whitespace at either end |
| `PyStrings.StripPadding` | valhalla_experiments.py:17 | stripping whitespace padding around a trimmed string gives that string back |
| `PyStrings.StripTrailing` | valhalla_experiments.py:17 | a trimmed line followed only by its terminator strips to the line |
| `PyStrings.StripIdempotent` | valhalla_experiments.py:17 | stripping twice is stripping once |
| `PyStrings.Split` | valhalla_experiments.py:17 | `split('\t')` always yields at least one field; `SplitSpec`, `JoinSplit` and `SplitJoin` pin it down as the inverse of joining |
| `PyStrings.SplitSpec` | valhalla_experiments.py:17 | `split('\t')` yields one field more than there are tabs, and no field contains a tab |
| `PyStrings.JoinSplit` | valhalla_experiments.py:17 | joining the fields of a split with the separator gives back the split string |
| `PyStrings.SplitJoin` | valhalla_experiments.py:17 | splitting a join of tab-free fields gives back exactly those fields |
| `GpsTrace.LineFields` | valhalla_experiments.py:17 | `line.strip().split('\t')[2:]`; `LineFieldsOfRecord`, `ShortLineGivesEmptyEntry`, `FixLine` and `EmptyFirstColumnShifts` state what it keeps |
| `GpsTrace.ConvertFields` | valhalla_experiments.py:18 | the comprehension of `float`s succeeds exactly when every field converts, and then holds each field's number in order |
| `GpsTrace.ConvertFieldsError` | valhalla_experiments.py:18 | a failed conversion reports the first field that does not convert |
| `GpsTrace.ParseLine` | valhalla_experiments.py:17-18 | one data line's entry: its kept fields converted; `FixConverts` states it for a fix line |
| `GpsTrace.ConvertRows` | valhalla_experiments.py:16-18 | the data lines' entries succeed exactly when every line converts, one entry per line in file order |
| `GpsTrace.FirstErrorStops` | valhalla_experiments.py:16-18 | the first line that fails ends the read with that line's error, whatever follows |
| `GpsTrace.ConvertRowsError` | valhalla_experiments.py:16-18 | a failed read carries the error of the first failing line, and every line before it converted |
| `GpsTrace.ReadTrace` | valhalla_experiments.py:9-20 | what `read_gps_data` returns; `ReadTraceEntries`, `ConvertRowsError` and `FirstErrorStops` pin it down |
| `GpsTrace.ReadGpsData` | valhalla_experiments.py:9-20 | the loop appends entries so that the result is `ReadTrace(lines)`: header dropped, lines converted in order, first error raised |
| `GpsTrace.ReadTraceEntries` | valhalla_experiments.py:12-18 | an empty file gives no entries; otherwise exactly one header line is dropped: a successful read has one entry per later line, in file order, each that line's conversion; it succeeds exactly when every later line converts |
| `GpsTrace.LineFieldsOfRecord` | valhalla_experiments.py:17 | a line of tab-free fields plus a terminator keeps exactly its fields from the third on |
| `GpsTrace.ShortLineGivesEmptyEntry` | valhalla_experiments.py:17-18 | a line with fewer than three fields gives the empty entry, which always converts |
| `GpsTrace.FixLine` | valhalla_experiments.py:17 | a line `a<TAB>b<TAB>lat<TAB>lon` keeps `[lat, lon]` |
| `GpsTrace.FixConverts` | valhalla_experiments.py:17-18 | a line `a<TAB>b<TAB>lat<TAB>lon` with any tab-free first two columns (the first not starting with whitespace), trailing whitespace only after `lon`, and `lat`, `lon` converting to x and y gives the entry `[x, y]` |
| `GpsTrace.ThreeFixExample` | valhalla_experiments.py:9-20 | a header and three fixes `id<TAB>t<TAB>lat<TAB>lon` read as `[[1.0, 2.0], [1.1, 2.1], [1.2, 2.2]]` |
| `GpsTrace.EmptyFirstColumnShifts` | valhalla_experiments.py:17 | with an empty first column the leading tab is stripped, so only the fourth column is kept |
| `MatchQuery.Shape` | valhalla_experiments.py:36 | the shape has one point per entry with `lat = pt[0]` and `lon = pt[1]`, exactly when every entry has two numbers; otherwise the error names the first short entry |
| `MatchQuery.CreateQuery` | valhalla_experiments.py:22-38 | `create_query` with its default parameters; `CreateQueryShape`, `CreateQueryFixedParts`, `CreateQueryDefaults`, `FiltersIndependentOfInput` and `ShapeRoundTrip` pin it down |
| `MatchQuery.CreateQueryShape` | valhalla_experiments.py:22-38 | the request is built exactly when every entry has two numbers; `len(shape) == len(coords)` and `shape[i]` is `{lat: coords[i][0], lon: coords[i][1]}`; the error names the first short entry |
| `MatchQuery.CreateQueryFixedParts` | valhalla_experiments.py:22-34 | `costing` and `shape_match` pass through unchanged; `filters` holds the five matched-point attributes in order with action "include" |
| `MatchQuery.CreateQueryDefaults` | valhalla_experiments.py:22 | without parameters the request uses "auto" and "walk_or_snap" |
| `MatchQuery.FiltersIndependentOfInput` | valhalla_experiments.py:24-29 | any two requests carry the same five-attribute filter, whatever their trace and parameters |
| `MatchQuery.ShapeRoundTrip` | valhalla_experiments.py:36 | reading pairs back from the shape gives each entry's first two numbers; for a trace of pairs it gives the trace itself |
| `MatchReport.ToRow` | valhalla_experiments.py:68-73 | a row has one cell per column of the table |
| `MatchReport.Kept` | valhalla_experiments.py:62-66 | the points that get a row; `KeptIsExactSelection`, `KeptAreMatched`, `KeptAppend`, `KeptIdempotent` and `KeptCount` pin it down as the order-preserving filter on type != "unmatched" |
| `MatchReport.Accuracy` | valhalla_experiments.py:76 | `n_matched / n_pts`, defined only when there is a point; `AccuracyBounds` places it in [0, 1] |
| `MatchReport.ScanMatchedPoints` | valhalla_experiments.py:58-74 | after the loop `n_pts == len(matched_points)`, `matched_trip` is the rows of the non-"unmatched" points in order, and `n_matched == len(matched_trip) <= n_pts`; the loop keeps this for every prefix |
| `MatchReport.ParseResponse` | valhalla_experiments.py:54-78 | fails with division by zero exactly when there are no matched points; otherwise returns the table with columns `mm_lon, mm_lat, edge_id, pos, dev, type` and the accuracy `n_matched / n_pts` |
| `MatchReport.KeptIsExactSelection` | valhalla_experiments.py:62-73 | the kept points are exactly the non-"unmatched" points, each once, in their original relative order |
| `MatchReport.KeptAreMatched` | valhalla_experiments.py:65-66 | no "unmatched" point is kept, and no more points are kept than there are |
| `MatchReport.KeptAppend` | valhalla_experiments.py:62-73 | the filter works point by point: filtering a concatenation filters each part |
| `MatchReport.KeptIdempotent` | valhalla_experiments.py:65-66 | filtering the kept points again keeps them all |
| `MatchReport.KeptCount` | valhalla_experiments.py:62-74 | every point is counted as matched exactly when none is "unmatched"; none is exactly when all are |
| `MatchReport.AccuracyBounds` | valhalla_experiments.py:76 | the accuracy lies in [0, 1]; it is 1 exactly when no point is "unmatched" and 0 exactly when all are |
| `MatchReport.RowLayout` | valhalla_experiments.py:56-73 | column c of a row holds the point's value under the c-th key of `lon, lat, edge_index, distance_along_edge, distance_from_trace_point, type`, and the point can be read back from its row |
| `MatchReport.TableRowsFromPoints` | valhalla_experiments.py:62-78 | each table row is the row of a non-"unmatched" response point, in response order, and every such point has its row |
| `MatchReport.OneUnmatchedOfThree` | valhalla_experiments.py:62-76 | three points of which one is "unmatched" give two rows and accuracy 2/3 |

## Left out

- `make_valhalla_mapmatch_query` (JSON serialisation, `valhalla.Configure`, `Actor().TraceAttributes`, wall-clock timing): a foreign call into an engine whose behaviour is not visible, plus I/O.
- Opening and reading the file: the input is the file's sequence of lines. Python's newline translation is not modelled.
- Float parsing and float arithmetic: `float` is the parameter `parse`, numbers are `real`, and the accuracy is the exact ratio, not the rounded float.
- The `print` calls and their `%.3f` / `%.2f` formatting. The accuracy is returned in `Report` instead of printed.
- pandas `DataFrame` construction and `to_csv`: the table is its column names and a sequence of rows. The index column that `to_csv` writes is not modelled.
- The `__main__` driver with its fixed paths.
- Missing keys in the response (`KeyError` on `matched_points`, `type` or a payload field) are not modelled. The response is typed, with every key present.
- A JSON number in the response may be an integer or a float. Here `lon`, `lat` and the distances are `real` and `edge_index` is `int`.
