# gmapsdatalib, modelled in Dafny

`gmapsdatalib` collects Google Maps places in four steps. It builds a grid of
coordinates over a parallelogram (`gridMaker`). It runs a nearby-search
request at every grid point, either failing fast (`get_ids_from_grid`) or
saving the ids to a file and keeping a list of the points whose request failed
(`ids_to_file_from_grid`). It reads the saved id files back and removes
duplicates (`get_unique_ids_from_files`). Finally it fetches each place's
details into one file per id (`data_from_ids_to_files`). Every reply passes
through `request_check`, which accepts only the statuses `OK` and
`ZERO_RESULTS`.

This project models those steps as pure functions:

- `Status`: `request_check` and the shape of a reply (`status` plus the body
  the caller reads).
- `Grid`: `gridMaker` over exact reals. The two geodesic side lengths are
  inputs. `int()` is truncation toward zero. The two nested loops are
  modelled as the row-major sequence of index pairs they visit.
- `Tokens`: Python's `str.split()` with no argument (runs of `str.isspace()`
  characters) and `str(n)` for the grid index.
- `Unique`: `list(set(xs))`. It promises only the element set and that there
  are no duplicates, because Python's set order is unspecified.
- `IdFile`: the line format `"<index> <place_id>\n"` and its reader
  `line.split()[1]`. A file is the sequence of its lines.
- `Collector`: the two nearby-search loops. The service is replaced by one
  given reply per grid point. The module also has a variant of the
  fault-tolerant loop with the early return fixed (see Findings).
- `Details`: the persist-to-folder loop of `data_from_ids_to_files`. The
  folder is a map from id to stored record, and records are opaque.

## Behaviour of the code that the model follows

- `gridMaker` fails with `ZeroDivisionError` when a step is zero. It also
  fails when a step count `npx` or `npy` is zero while the other is
  non-negative, because of `i/npx` or `j/npy`. So a grid with zero steps
  along one axis is an error, not a single row. When either count is
  negative, a `range` is empty, no division runs, and the result is `[]`.
  A negative step gives a negative count only when the side is at least one
  step long. A shorter side truncates to a count of zero, which is the error
  again when the other count is non-negative. For example, a side of 0.5 km
  with a step of -1000 m gives `int(-0.5) == 0`. Coincident corners give a
  zero geodesic length and a zero count. That is the error when the other
  count is non-negative, and `[]` when the other count is negative.
- In `ids_to_file_from_grid` the `return` is inside the loop. If no point's
  request is accepted, including an empty grid, the loop ends without a
  `return`, and the function returns `None` rather than the list of error
  points.
- A line with fewer than two fields makes `get_unique_ids_from_files` fail.
  This includes the line written for an empty `place_id`. The model reports
  the file and line where that happens. The source raises a bare
  `IndexError` there.

## Model

| member | source | states |
|---|---|---|
| `Status.RequestCheck` | gmapsdatalib.py:14-17 | a reply is accepted exactly when its status is `OK` or `ZERO_RESULTS`; otherwise the `RequestError` raised reports that status, readable back from its message |
| `Status.RequestCheckInjective` | gmapsdatalib.py:14-17 | two rejected statuses with the same error are the same status: the error carries the status |
| `Grid.Trunc` | gmapsdatalib.py:66-67 | `int()` truncates toward zero: the result is the integer part of non-negative inputs, and of negative ones rounded up |
| `Grid.GridMaker` | gmapsdatalib.py:19-78 | `ZeroStep` exactly when a step is zero; `ZeroStepCount` exactly when both counts are non-negative and one is zero; `[]` when a count is negative; otherwise exactly the lattice of `(npx+1)*(npy+1)` points in row-major order |
| `Grid.LatticeIsLattice` | gmapsdatalib.py:65-78 | the two nested loops build `(npx+1)*(npy+1)` points, point `(i, j)` at index `i*(npy+1)+j` with `i` outer and `j` inner, and no other points |
| `Grid.LatticeAt` | gmapsdatalib.py:68-76 | index `i*(npy+1)+j` holds `center + (i/npx)·vector_x + (j/npy)·vector_y`, per coordinate |
| `Grid.LatticeCorners` | gmapsdatalib.py:53-75 | lattice point `(0,0)` is `center`, `(npx,0)` is `bottom_right`, `(0,npy)` is `top_left`, and `(npx,npy)` is `bottom_right + top_left − center` |
| `Grid.GridVertices` | gmapsdatalib.py:65-78 | when both counts are positive, the first grid point is `center`, index `npx*(npy+1)` is `bottom_right`, index `npy` is `top_left` and the last point is the fourth vertex |
| `Grid.PositiveStepsOutcome` | gmapsdatalib.py:48-67 | with positive steps, the grid is built exactly when each side is at least one step long; otherwise the result is `ZeroStepCount` |
| `Grid.RatioAtLeastOne` | gmapsdatalib.py:61-67 | with a positive step, the count is non-negative and is positive exactly when the side is at least one step long |
| `Tokens.Split` | gmapsdatalib.py:207 | every field `split()` returns is non-empty and contains no whitespace, and an empty line has no fields; `SplitToken` and `SplitSpace` give the two equations that pin the result |
| `Tokens.SplitSpace` | gmapsdatalib.py:207 | a leading whitespace character does not change the fields `split()` returns |
| `Tokens.SplitToken` | gmapsdatalib.py:207 | a whitespace-free field followed by whitespace or by nothing is split off whole |
| `Tokens.NatToString` | gmapsdatalib.py:186 | `str(i)` is a non-empty string of decimal digits with no leading zero |
| `Tokens.ParseNatToString` | gmapsdatalib.py:186 | reading the numeral `str(i)` back gives `i` |
| `Unique.Dedupe` | gmapsdatalib.py:209 | `list(set(xs))` has no duplicates and exactly the elements of `xs` |
| `Unique.DedupeLength` | gmapsdatalib.py:128 | the deduplicated list has one entry per distinct element |
| `IdFile.TagLines` | gmapsdatalib.py:184-186 | one successful point `i` appends one line per result, in result order. When every id is one whitespace-free field, reading these lines back gives exactly the point's ids in result order |
| `IdFile.SecondToken` | gmapsdatalib.py:207-208 | the id read from a line is a single whitespace-free field |
| `IdFile.SplitEncodeLine` | gmapsdatalib.py:186 | splitting a written line gives exactly the index numeral and the place id, when the id has no whitespace |
| `IdFile.DecodeEncodeLine` | gmapsdatalib.py:207-208 | the reader takes back the written place id, and the first field parses back to the grid index |
| `IdFile.EmptyIdUnreadable` | gmapsdatalib.py:207-208 | the line written for an empty place id has one field, which the reader rejects |
| `IdFile.FileIds` | gmapsdatalib.py:205-208 | a file's ids are the second fields of its lines, in order; or the first line with fewer than two fields |
| `IdFile.FilesIds` | gmapsdatalib.py:202-208 | over all files, the ids are exactly the second fields of all lines; or the first malformed line in file-then-line order |
| `IdFile.GetUniqueIdsFromFiles` | gmapsdatalib.py:190-209 | succeeds exactly when every line has two fields; it then returns a duplicate-free list whose elements are exactly the second fields of all lines of all files; otherwise it names the first malformed line |
| `IdFile.DuplicatesAcrossFilesCollapse` | gmapsdatalib.py:202-209 | for any indices `i`, `j`, `k`, files `["i a"]` and `["j a", "k b"]` give exactly `{a, b}`, two entries |
| `Collector.CollectIds` | gmapsdatalib.py:105-126 | the fail-fast loop succeeds exactly when every reply is accepted, collecting every returned id; otherwise it raises the first rejected reply's error |
| `Collector.FirstRejectedShift` | gmapsdatalib.py:109-118 | the first rejection after an accepted first reply is one position later in the whole list |
| `Collector.GetIdsFromGrid` | gmapsdatalib.py:80-128 | fails exactly when some point is rejected, with the first rejected point's error and no partial result; otherwise returns the distinct ids over all points |
| `Collector.GetIdsFromGridCount` | gmapsdatalib.py:124-128 | on success the result has as many entries as there are distinct returned ids |
| `Collector.ScanFromStops` | gmapsdatalib.py:162-188 | from point `k`, when `s` is the first accepted point, the loop returns the errors so far plus the points from `k` to `s`, and the file holds only the lines of point `s`, tagged `s` |
| `Collector.ScanFromNone` | gmapsdatalib.py:162-188 | from point `k`, when no later point is accepted, the loop writes nothing and returns nothing |
| `Collector.FirstSuccess` | gmapsdatalib.py:163-188 | when some reply is accepted, the loop stops at the first accepted one |
| `Collector.IdsToFileFromGrid` | gmapsdatalib.py:130-188 | returns a list exactly when some point is accepted; that list is the grid points before the first accepted one, and the file holds only that point's ids tagged with its index; with none accepted it returns `None` and the file is empty |
| `Collector.ErrorPointsAllFailed` | gmapsdatalib.py:172-176 | every returned error point is a grid point whose request was rejected |
| `Collector.ReadBackAsWritten` | gmapsdatalib.py:183-209 | reading back the file gives exactly the first accepted point's ids |
| `Collector.EarlyReturnDropsLaterPoints` | gmapsdatalib.py:188 | with two accepted points only the first point's id is written and the error list is empty |
| `Collector.AllRejectedReturnsNothing` | gmapsdatalib.py:162-188 | with every point rejected the function returns `None` |
| `Collector.PointsWith` | gmapsdatalib.py:171-175 | the grid indices below `n` whose reply `request_check` accepts, or those it rejects, each once and in increasing order |
| `Collector.ScanLoop` | gmapsdatalib.py:162-187 | corrected loop: after `n` points the error points are the rejected points in grid order, each once, and the lines are the tagged lines of the accepted points in grid order |
| `Collector.ScanAll` | gmapsdatalib.py:162-187 | corrected loop: the ordered statement of `ScanLoop`, plus membership: a point is an error point exactly when it is rejected, and a line is in the file exactly when it is the tagged line of some id of an accepted point |
| `Collector.IdsToFileFromGridFull` | gmapsdatalib.py:130-187 | corrected collector: the error points are the rejected grid points in grid order, each once, and the file holds the tagged lines of every accepted point, point after point in grid order and one line per id |
| `Collector.ReadBackFull` | gmapsdatalib.py:183-209 | reading back the corrected file gives exactly the ids of all accepted points |
| `Details.ErrorIdsWithin` | gmapsdatalib.py:284-288 | after `n` ids, `error_ids` holds exactly the ids whose request was rejected |
| `Details.KeysWithin` | gmapsdatalib.py:290-295 | after `n` ids, the folder holds its earlier files plus one file per accepted id |
| `Details.ValuesWithin` | gmapsdatalib.py:293-295 | each stored id holds the record of its last accepted request |
| `Details.UntouchedWithin` | gmapsdatalib.py:284-295 | a file that no accepted id writes keeps its earlier contents |
| `Details.DataFromIdsToFiles` | gmapsdatalib.py:251-296 | error ids are exactly the rejected ids; stored files are the earlier ones plus the accepted ids; a duplicate id keeps its last accepted record; untouched files are unchanged |
| `Details.DetailsStep` | gmapsdatalib.py:279-296 | one more id either appends that id to `error_ids` or writes its record, so `error_ids` keeps input order |
| `Details.DetailsPrefix` | gmapsdatalib.py:279-296 | the first `n` iterations depend only on the first `n` ids and replies |
| `Details.DetailsPartition` | gmapsdatalib.py:276-296 | for distinct ids and an empty folder, each id is either in `error_ids` or stored (with its record), exactly as its request failed or not, and nothing else is in either |
| `Details.OneFailureOneRecord` | gmapsdatalib.py:279-296 | ids `[x, y]` with `x` rejected and `y` accepted write only `y`'s record and return `[x]` |

## Left out

- HTTP requests and URL building (gmapsdatalib.py:116-117, 170-171, 237-240, 280-283) are network I/O. The model takes the replies as inputs, one per grid point or id.
- `geopy.distance.geodesic` (gmapsdatalib.py:59-60) is a foreign ellipsoidal-distance routine. Its two results are inputs to `Grid.GridMaker`.
- The checks and normalisation geopy's `Point` applies to coordinates (gmapsdatalib.py:44-46) are not modelled. Coordinates are used as given.
- Floating point is not modelled. The lattice arithmetic is exact over reals, which is an idealisation: rounding, overflow and infinities are ignored.
- Pickle serialisation and folder listing (`pkl_files_to_list_of_dicts`, gmapsdatalib.py:298-320, and the dump at 294-295) are filesystem work on opaque data. A stored record is the reply's body.
- File mechanics are not modelled: opening, truncating, appending, `readlines()` and newline translation. A file is its list of lines. A place id containing a line break would split a line in a real file. Such an id has whitespace and is excluded from the round trip anyway.
- File names are not modelled. A stored record is keyed by its id, not by the path `folder+'/'+id+'.pkl'`, so ids that are not valid file names are out of scope.
- The JSON shape of replies is assumed: `status`, `results`, `result` and `place_id` are present. The bare `except:` in the fault-tolerant loops would also swallow a missing `status` field. That case is not modelled.
- `get_data_from_ids` (gmapsdatalib.py:211-249) is a fail-fast map over ids with the same shape as `Collector.CollectIds`, so it is not modelled separately.
- The mutable default `payload`/`headers` arguments and `RequestError.__str__` have no effect on the modelled results.
- `Unique.Dedupe`: the order of `list(set(...))` is Python's hash order. The model fixes one order (last occurrences), and the contracts state only the element set and the absence of duplicates.

## Findings

| source | as written | input that shows it | evidently intended | confidence | as-written member | corrected member |
|---|---|---|---|---|---|---|
| gmapsdatalib.py:188 | `return error_points` is indented inside the `for` loop. The function returns right after the first point whose request is accepted, and returns `None` when no point is accepted | a grid of two points whose replies are both `OK`, with ids `["a"]` and `["b"]`: the file holds only `0 a` and `b` is never requested | `return` after the loop: every point is queried, all rejected points are returned, and the file holds the ids of every accepted point | high; not executed | `Collector.EarlyReturnDropsLaterPoints` | `Collector.IdsToFileFromGridFull` |
