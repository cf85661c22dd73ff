# Route optimisation: the nearest-neighbour round trip

This project models `RouteOptimization`, the core of the route-optimisation
service in `Route_Optimization/lambda_function.py`. Given location names and
their `[lat, lon]` coordinates, with the first location as the depot, it
builds a closed tour greedily:

- start at the depot;
- repeatedly move to the nearest location not yet visited;
- on a distance tie, take the unvisited location that comes earliest in the
  unvisited list;
- finally return to the depot.

It then turns the tour of indices into names and a dictionary of coordinates.

The model has three parts, plus a small Geo module:

- **Seqs** (`seqs.dfy`): the list and numpy operations the loop relies on.
  These are `range`, `np.delete`, `argmin`, `zip` and per-index lookup.
- **TourBuilder** (`tour_builder.dfy`): the state `__init__` sets up, one
  loop iteration (`Step`), and the whole loop as both a recursive function
  (`Run`, `NearestNeighbourTour`) and a loop method (`BuildRoute`).
  - `IsNearestNeighbourTour` describes the result without reference to the
    loop. A round trip (`IsRoundTrip`) is a tour that starts and ends at the
    depot and visits every other location exactly once.
  - A nearest-neighbour tour is a round trip in which every stop beats every
    later stop as seen from the stop before it. It beats another stop if it
    is nearer, or equally near with a smaller index.
  - The loop's result is proved to be the one and only sequence meeting
    this description (`TourCharacterisation`).
- **ResultAssembly** (`result_assembly.dfy`):
  - the names along the tour (`route_locations`);
  - the ordered (name, coordinates) route that the pairing of names with
    coordinates evidently intends;
  - the dictionary the code actually builds. Python dicts are modelled as
    insertion-ordered association lists.

**Geo.** The geodesic distance is a function-typed parameter
`Metric = (Coord, Coord) -> real`. It is called as the code calls it: the
candidate row first, the previous stop second. No property of it is assumed.

**Unvisited indices stay in increasing order.** `ids` starts as `1..n-1`,
and `np.delete` keeps the order of what remains. So "earliest in the
unvisited list" is the same as "smallest location index", and the tie-break
becomes a plain lexicographic order on (distance, index).

**Input requirements.** The code never validates its input. The model
requires `|locations| == |coordinates| >= 1` of its callers: one name per
coordinate pair and at least the depot. "## Left out" says what the code
does with inputs of other shapes.

## Model

| member | source | states |
|---|---|---|
| Seqs.Range | Route_Optimization/lambda_function.py:29 | `list(range(lo, hi))` has `hi - lo` elements, the i-th being `lo + i` |
| Seqs.RangeCount | Route_Optimization/lambda_function.py:29 | every integer of [lo, hi) occurs in the range exactly once, and no other integer occurs |
| Seqs.RemoveAt | Route_Optimization/lambda_function.py:57-60 | `np.delete` at position p shortens the list by one; elements before p stay put, later ones shift down by one; together with the deleted element it is a permutation of the input |
| Seqs.RemoveAtKeepsIncreasing | Route_Optimization/lambda_function.py:57 | deleting from a strictly increasing id list leaves it strictly increasing |
| Seqs.ArgMin | Route_Optimization/lambda_function.py:55 | `argmin` returns a valid position whose distance is at most every other distance and strictly less than every distance before it (first minimum) |
| Seqs.Resolve | Route_Optimization/lambda_function.py:64 | the list comprehension over indices has one entry per index, each the table entry at that index |
| Seqs.ResolvePreservesPermutation | Route_Optimization/lambda_function.py:64 | looking a table up through two index lists that are permutations of each other gives two lists that are permutations of each other |
| Seqs.PermutationOfRange | Route_Optimization/lambda_function.py:34 | a permutation of lo..hi-1 contains exactly those values, with no value twice |
| Seqs.Zip | Route_Optimization/lambda_function.py:32-33 | `zip` of two equally long lists pairs the i-th elements |
| Geo.Distances | Route_Optimization/lambda_function.py:50-53 | one distance per remaining row, measured from the row to the previous stop |
| TourBuilder.Init | Route_Optimization/lambda_function.py:29-36 | after construction the tour is `[0]`, and every location but the depot is unvisited, in input order, with its own coordinate row |
| TourBuilder.InitValid | Route_Optimization/lambda_function.py:34-36 | the constructed state satisfies the loop invariant: rows aligned with ids, ids increasing, every non-depot location unvisited |
| TourBuilder.Advance | Route_Optimization/lambda_function.py:56-60 | the updates of one iteration: append `ids[p]` to the route, delete position p from ids and rows. Its contract is carried by AdvanceKeepsShape, AdvanceKeepsGreedy and StepKeepsValid |
| TourBuilder.AdvanceKeepsShape | Route_Optimization/lambda_function.py:56-60 | appending `ids[p]` to the tour and deleting position p from ids and rows keeps them aligned and keeps every location either on the tour or unvisited, never both |
| TourBuilder.ArgMinBeatsRest | Route_Optimization/lambda_function.py:47-56 | the location argmin chooses is nearer to the previous stop than every location left unvisited, or equally near with a smaller index |
| TourBuilder.AdvanceKeepsGreedy | Route_Optimization/lambda_function.py:56 | appending a location that beats every remaining location keeps every earlier choice a greedy minimum |
| TourBuilder.StepKeepsValid | Route_Optimization/lambda_function.py:46-60 | one loop iteration preserves the invariant |
| TourBuilder.Step | Route_Optimization/lambda_function.py:46-60 | one iteration extends the tour by exactly one stop and keeps the earlier stops. The new stop leaves the unvisited list, which shrinks by one. The new stop beats every location still unvisited |
| TourBuilder.Run | Route_Optimization/lambda_function.py:46-60 | after s iterations the tour has s+1 stops, n-1-s locations remain unvisited, and the invariant holds |
| TourBuilder.FinishedTour | Route_Optimization/lambda_function.py:63 | appending the depot once nothing is unvisited yields a nearest-neighbour tour |
| TourBuilder.NearestNeighbourTour | Route_Optimization/lambda_function.py:46-63 | the tour starts and ends at 0, has n+1 stops, its interior is a permutation of 1..n-1, and each stop beats every later stop as seen from its predecessor |
| TourBuilder.SameNextStop | Route_Optimization/lambda_function.py:55-56 | two nearest-neighbour tours that agree up to a stop agree at that stop |
| TourBuilder.NearestNeighbourTourUnique | Route_Optimization/lambda_function.py:55-56 | because ties are broken by position, at most one tour meets the nearest-neighbour description |
| TourBuilder.TourCharacterisation | Route_Optimization/lambda_function.py:46-63 | a sequence is the loop's tour if and only if it meets the nearest-neighbour description |
| TourBuilder.VisitsEveryStopOnce | Route_Optimization/lambda_function.py:46-63 | every non-depot location appears in the interior of the tour, nothing else appears there, and no location appears there twice |
| TourBuilder.BuildRoute | Route_Optimization/lambda_function.py:46-63 | the loop with mutable `route`, `ids` and rows returns a nearest-neighbour tour, equal to the recursive model's |
| TourBuilder.SingleLocationTour | Route_Optimization/lambda_function.py:46-63 | with only the depot, the loop does not run and the tour is `[0, 0]` |
| TourBuilder.TwoLocationTour | Route_Optimization/lambda_function.py:46-63 | with one stop besides the depot, the tour is `[0, 1, 0]` |
| TourBuilder.TieGoesToEarlierLocation | Route_Optimization/lambda_function.py:55-56 | two stops exactly as far from the depot are visited in input order: the tour is `[0, 1, 2, 0]` |
| ResultAssembly.RoundTripLookup | Route_Optimization/lambda_function.py:64 | looking a per-location table up along a round trip gives the depot entry at both ends, with every other entry exactly once in between |
| ResultAssembly.RouteLocations | Route_Optimization/lambda_function.py:64 | `route_locations` has n+1 names, and position k holds the name of the location the tour visits at step k. So it starts and ends with the depot's name, and its interior is a permutation of the other input names |
| ResultAssembly.RoundTripMembers | Route_Optimization/lambda_function.py:64 | a list that opens and closes with the depot's entry and holds the other entries, permuted, in between contains exactly the entries of the table |
| ResultAssembly.RouteNames | Route_Optimization/lambda_function.py:64 | a name occurs in `route_locations` exactly when it is an input name |
| ResultAssembly.RouteEntries | Route_Optimization/lambda_function.py:64-66 | the ordered route of (name, coordinates) pairs. It has n+1 entries and starts and ends with the depot's own pair. Its interior is a permutation of the other input pairs. At every position it pairs the name of that stop (`route_locations`) with the coordinates of the same stop, so two equal names never swap coordinates |
| ResultAssembly.Keys | Route_Optimization/lambda_function.py:65 | `for x in d`: the keys of a dict in insertion order, one per entry |
| ResultAssembly.Lookup | Route_Optimization/lambda_function.py:65 | `d[k]`, with None for a missing key. It has no contract of its own: LookupKeys (which keys succeed) and LookupAt (what a key finds) state what it means |
| ResultAssembly.TiedStopsRoute | Route_Optimization/lambda_function.py:55-66 | with two stops tied for distance from the depot, the route is depot, first stop, second stop, depot, each with its own coordinates |
| ResultAssembly.LookupKeys | Route_Optimization/lambda_function.py:65 | looking a key up finds a value exactly when the key is in the dict |
| ResultAssembly.LookupAt | Route_Optimization/lambda_function.py:65 | in a dict with distinct keys, the key at position i looks up to the value at position i |
| ResultAssembly.Insert | Route_Optimization/lambda_function.py:33 | `d[k] = v` makes k map to v and leaves every other key's lookup unchanged. A new key is appended at the end. An existing key keeps its position, and so does every other key |
| ResultAssembly.InsertKeepsDistinct | Route_Optimization/lambda_function.py:33 | inserting never makes a key occur twice |
| ResultAssembly.AssignKeepsDistinct | Route_Optimization/lambda_function.py:33 | assigning a list of pairs never makes a key occur twice |
| ResultAssembly.Assign | Route_Optimization/lambda_function.py:33 | the insertions of `dict(zip(..))`, and of the comprehension at line 66, one pair after another. Its contract is carried by AssignAppend, AssignKeys, AssignKeyOrder, AssignLast, AssignOtherKey and AssignKeepsDistinct |
| ResultAssembly.AssignKeyOrder | Route_Optimization/lambda_function.py:33 | after assigning a list of pairs, the keys already present keep their places, and the new keys follow in order of first occurrence in the list |
| ResultAssembly.AssignKeys | Route_Optimization/lambda_function.py:33 | after assigning a list of pairs, the keys are the old keys together with the keys of the list |
| ResultAssembly.AssignOtherKey | Route_Optimization/lambda_function.py:33 | assigning pairs that do not mention a key leaves that key's lookup unchanged |
| ResultAssembly.AssignLast | Route_Optimization/lambda_function.py:33 | after assigning a list of pairs, a key holds the value of its last pair in the list |
| ResultAssembly.AssignAppend | Route_Optimization/lambda_function.py:66 | assigning two lists of pairs in turn is assigning their concatenation |
| ResultAssembly.AssignWithKey | Route_Optimization/lambda_function.py:66 | assigning one key every value of a list leaves it holding the last value |
| ResultAssembly.Product | Route_Optimization/lambda_function.py:66 | the pairs of `{k: v for k in ks for v in vs}` in evaluation order: for each key in turn, every value in turn. Its contract is carried by AssignProduct (values) and AssignProductKeys (key order) |
| ResultAssembly.AssignProduct | Route_Optimization/lambda_function.py:66 | in `{k: v for k in ks for v in vs}` every key of ks ends up holding the last value of vs |
| ResultAssembly.AssignPresentKey | Route_Optimization/lambda_function.py:66 | assigning a key the dict already holds, any number of times, leaves the keys and their order unchanged |
| ResultAssembly.AssignWithKeyKeys | Route_Optimization/lambda_function.py:66 | assigning one key one or more values appends it to the keys unless it is already there |
| ResultAssembly.AddNewContents | Route_Optimization/lambda_function.py:66 | the first-occurrence list of names holds exactly the names given, each once |
| ResultAssembly.AssignProductKeys | Route_Optimization/lambda_function.py:66 | the keys of `{k: v for k in ks for v in vs}` are the names of ks without repeats, in order of first occurrence |
| ResultAssembly.Values | Route_Optimization/lambda_function.py:65 | `[d[x] for x in d]` has one entry per key: what that key looks up to, in key order |
| ResultAssembly.DictLocations | Route_Optimization/lambda_function.py:33 | the keys of `dict(zip(locations, coordinates))` are the input names without repeats, in order of first occurrence. A name maps to the coordinates of its last occurrence in the input |
| ResultAssembly.AsWrittenRouteDict | Route_Optimization/lambda_function.py:65-66 | the returned dict's keys are the route's names without repeats, in order of first visit, so the closing depot collapses into the opening one. They are exactly the input names. Every one of them maps to the same coordinates: the value of the last key of `dict_locations` |
| ResultAssembly.TwoLocationNames | Route_Optimization/lambda_function.py:64 | with two locations, `route_locations` is the first name, the second, the first again |
| ResultAssembly.TwoLocationDict | Route_Optimization/lambda_function.py:33 | with two distinct names, `dict_locations` holds both, in input order, each with its own coordinates |
| ResultAssembly.AsWrittenMispairsDepot | Route_Optimization/lambda_function.py:65-66 | for a depot at (0, 0) and one stop "A" at (0, 1), the returned dict maps "Depot" to (0, 1) and has two entries. The ordered route pairs "Depot" with (0, 0) and has three stops |

## Left out

- `lambda_handler` is left out. That covers the Kinesis record decoding (base64, JSON), the random `uuid` prediction id, the `PRED_STREAM` environment lookup and `put_record`. It is all I/O around the core.
- geopy's geodesic distance is left out. It is a floating-point ellipsoid computation, so the model takes the metric as a parameter and assumes nothing about it: no symmetry, no non-negativity, no coordinate range checks. Floating-point rounding and NaN are not modelled. Distances are exact reals and compare exactly.
- The numpy arrays are modelled as sequences. `self.latitude` and `self.longitude` (lines 30-31), and the transposed two-column coordinate array (line 35), are collapsed into one `Coord` per location. Line 47-48 reads the previous stop's coordinates from the full lists, and the model does the same with `coordinates[route[last]]`.
- Inputs of other shapes are not modelled. The code never checks that `locations` and `coordinates` have the same length, nor that they are non-empty, so the model requires `|locations| == |coordinates| >= 1` instead of returning an error. The code behaves as follows on the inputs left out:
  - No locations: `KeyError` at line 64, or `IndexError` at line 56 when there are two or more coordinates.
  - More coordinates than locations, with at least one location: the loop runs `len(coordinates) - 1` times (line 46) over only `len(locations) - 1` ids, so line 56 raises `IndexError` at the latest once the ids run out.
  - More locations than coordinates: no error is raised. The tour covers only the locations that have coordinates. With no coordinates at all the returned dict is empty.
- Coordinate-range errors are not modelled. The code performs no range check of its own, and the distance parameter replaces geopy's.
- `dict_indexes` (line 32) is modelled as the list `locations` indexed by position. Its keys are the distinct positions `0..n-1`, so looking a key up is indexing the list.
- Python dicts are modelled as lists of (key, value) entries in insertion order, the order Python 3.7 and later guarantee. Values requires distinct keys, which every dict built here has (DictLocations, AssignKeepsDistinct).
- Repeated calls to `get_route` on one object are not modelled. The method mutates `self.route`, `self.ids` and `self.coordinates_array` (lines 56-63). A second call with two or more locations finds no rows left, and `argmin` of an empty list raises `ValueError` at line 55. The model builds every tour from the fresh state `__init__` sets up. This matches line 82, which makes a new object per request and calls `get_route` once.

## Findings

| source | as written | input that shows it | evidently intended | confidence | as-written member | corrected member |
|---|---|---|---|---|---|---|
| Route_Optimization/lambda_function.py:65-66 | `{k: v for k in route_locations for v in route_coordinates}` assigns every value to every key in turn, so every name ends up with the coordinates of the last name in `dict_locations`. Repeated names, such as the depot at both ends, also collapse into one key | locations `["Depot", "A"]` at `(0, 0)` and `(0, 1)`: "Depot" maps to `(0, 1)` | each position of the tour paired with that location's own name and coordinates, in tour order, keeping the repeated depot | high, not executed | ResultAssembly.AsWrittenMispairsDepot | ResultAssembly.RouteEntries |
