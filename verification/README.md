# Route ordering: nearest-neighbour tour with start and end pinning

This project models the route-ordering engine of a small delivery-route
planner. The engine takes a list of postal codes and optional start and end
codes. It resolves each code to a coordinate and builds the table of pairwise
distances. It then runs a greedy nearest-neighbour tour from the chosen start,
maps the tour back to postal codes, and finally forces the requested end code
into last place.

Modules, leaves first:

- `Wrappers` (`wrappers.dfy`): `Result` and `Option`.
- `Seqs` (`seqs.dfy`): the Python list operations the engine relies on. These are
  `list.index`, `list.remove`, the filtering comprehension and the
  index-mapping comprehension, plus the proof that reordering by a
  permutation of positions keeps the multiset of elements.
- `Distance` (`distance.dfy`): coordinates, the distance table and its
  nested-loop construction.
- `Tour` (`tour.dfy`): the nearest-neighbour solver as a state machine. Its
  state is `SolverState(current, unvisited, route)`, advanced by `Step` and
  `Run`. `NearestNeighborTour` returns a permutation that starts at `start`, and
  each of its steps moves to the nearest unvisited index, with ties going to
  the lowest index. `GreedyTourIsUnique` proves the converse: any permutation
  with those properties is exactly the solver's output.
- `Route` (`route.dfy`): the assembler. It covers start selection, the mapped
  tour, end pinning and the whole `real_route_optimizer`.
  Worked examples run the whole optimiser on any three different codes that a
  resolver places one unit apart on a line, measured with Manhattan distance
  (which on a line is the straight-line distance).

The coordinate resolver and the distance function are parameters
(`resolve: string -> Coord`, `dist: (Coord, Coord) -> real`). Each is an
arbitrary deterministic function. Distances are exact reals.

Behaviour of the engine worth knowing:

- An empty list of postal codes is not rejected up front. The start index
  defaults to 0, and `list.remove(0)` on the empty `range(0)` raises
  `ValueError`. The model returns `Failure(StartNotInRange(0, 0))`.
- A single postal code is handled normally and yields a one-element route.
- The bound of 2 to 15 codes belongs to the web form handler, not to the
  engine, so it is not a precondition here.
- The solver rejects a start index outside the table with the `ValueError`
  that `list.remove` raises.

## Model

| member | source | states |
|---|---|---|
| Distance.BuildDistanceMatrix | app.py:63-77 | the table has one row per coordinate and one entry per coordinate in each row; entry `[i][j]` is the distance from coordinate `i` to coordinate `j`; the two nested loops compute the same table as `DistanceMatrix` |
| Distance.DistanceMatrixSymmetric | app.py:59-77 | if the distance is symmetric and zero from a point to itself, the table is symmetric with a zero diagonal |
| Seqs.RemoveFirst | app.py:89 | `list.remove` takes out exactly one copy of the value: length drops by one, the multiset loses one copy, every other value stays |
| Seqs.RemoveFirstSplits | app.py:89 | removing the first occurrence at position `i` leaves exactly the elements before `i` followed by those after it |
| Seqs.RemoveFirstAppend | app.py:89 | when the value does not occur in a front part, removing its first occurrence leaves that front part untouched |
| Seqs.Range | app.py:85 | the initial index list holds `0..n-1`, each at its own position |
| Seqs.RemoveFirstAscending | app.py:89-94 | removing from the ascending `unvisited` list keeps it ascending and the removed index is gone |
| Seqs.IndexOf | app.py:110 | `list.index` gives a position holding the value, with no earlier occurrence |
| Seqs.RemoveAll | app.py:120 | the filter removes every copy of the value; every other value keeps its multiplicity; the length drops by the number of copies |
| Seqs.RemoveAllAppend | app.py:120 | filtering distributes over concatenation, so the kept codes stay in their relative order |
| Seqs.RemoveAllAbsent | app.py:120 | filtering out a value that does not occur returns the list unchanged |
| Seqs.Reorder | app.py:116 | mapping tour indices back gives one code per tour entry, the code at that index |
| Seqs.ReorderPermutes | app.py:116 | mapping a permutation of positions back to the codes keeps every code with its multiplicity, duplicates included |
| Tour.NearestPos | app.py:92 | `min` with a key returns a candidate whose distance is no larger than any other's, and strictly smaller than every candidate before it |
| Tour.NearestOfAscending | app.py:85-92 | because `unvisited` stays ascending, the first minimum is the nearest unvisited index, with ties going to the lowest index |
| Tour.NearestIsUnique | app.py:92 | with ties going to the lowest index, at most one index is the nearest choice |
| Tour.Initial | app.py:84-89 | the state before the loop is valid: the route is `[start]` and every other index below `n` is unvisited, in ascending order |
| Tour.MoveKeepsValid | app.py:93-95 | appending an unvisited index, removing it from `unvisited` and moving there keeps the state valid |
| Tour.Step | app.py:91-95 | one iteration appends the nearest unvisited index to the route and moves there; `unvisited` shrinks by one and the state stays valid |
| Tour.Run | app.py:91-96 | the loop ends with nothing unvisited; it only extends the route, and every entry it adds is a nearest step |
| Tour.FinalRouteIsPermutation | app.py:91-96 | a valid state with nothing unvisited has a route that is a permutation of `0..n-1` |
| Tour.NearestNeighborTour | app.py:79-96 | fails exactly when `start` is outside `0..n-1`; otherwise returns a permutation of `0..n-1` that begins at `start` and in which every later entry is the nearest index not yet visited, lowest index on ties |
| Tour.GreedyTourIsUnique | app.py:79-96 | any permutation that begins at `start` and always steps to the nearest unvisited index (lowest on ties) is the solver's result |
| Tour.LineGreedyFromEnd | app.py:84-96 | on the table of three equally spaced points on a line, walking along the line from one end is a greedy tour |
| Tour.LineGreedyFromMiddle | app.py:84-96 | from the middle point both neighbours are equally near, and visiting the lower index first is the greedy tour |
| Tour.LineFromEnd | app.py:84-96 | on the table of three equally spaced points on a line, the solver's tour from one end visits them in order |
| Tour.LineFromMiddle | app.py:84-96 | from the middle point both neighbours are equally near, and the solver visits the lower index first |
| Route.StartIndex | app.py:109-112 | the start index is the first position of `start` when `start` is non-empty and listed, and 0 otherwise |
| Route.ResolveAll | app.py:106 | one coordinate per code, in input order, each the resolver's value for that code |
| Route.MappedTour | app.py:106-116 | the tour-ordered codes exist exactly when the list is non-empty; they are the codes reordered by a nearest-neighbour tour over the resolved coordinates from the start index (unique by `GreedyTourIsUnique`), so they rearrange the input with the same multiset and length, begin with the code at the start index, and have no repeats when the input has none |
| Route.PinEnd | app.py:118-121 | when `end` is non-empty and listed, the result ends with it; otherwise the route is returned unchanged |
| Route.PinEndKeepsOthers | app.py:118-121 | pinning keeps every other code with its multiplicity and relative order; afterwards `end` occurs once, unless the route already ended with it and is left alone |
| Route.PinEndIdempotent | app.py:118-121 | pinning an already pinned route changes nothing |
| Route.PinEndOfDistinct | app.py:118-121 | on a route without repeats, pinning keeps the length and contents, and keeps the first code unless that code is `end` |
| Route.PinnedTourOrder | app.py:116-121 | after pinning, the codes other than `end` are still in the tour's order; a listed `end` then occurs exactly once unless the tour already ended with it, in which case the tour-ordered codes are kept unchanged; without a listed `end` the route is the tour-ordered codes unchanged |
| Route.OptimizeRoute | app.py:98-122 | succeeds exactly on a non-empty list; the result follows a nearest-neighbour tour from the start index: without a listed `end` it is the codes in tour order; with one, `end` is last, removing `end` from both leaves the same sequence, `end` occurs exactly once if the tour did not already end with it, and a tour already ending with it is returned unchanged |
| Route.OptimizeRouteOf | app.py:114-122 | on a non-empty list the answer is the tour-ordered codes with `end` pinned |
| Route.MappedTourOf | app.py:106-116 | whenever a permutation is a greedy tour over the resolved codes' table from the start index, the tour-ordered codes are the codes in exactly that order |
| Route.OptimizeRouteDistinct | app.py:98-122 | with distinct codes and different start and end, the result is a rearrangement of the input of the same length; it begins with `start` when given and listed, and ends with `end` when given and listed |
| Route.StartAlsoEndLosesFront | app.py:109-121 | when one code is both start and end, it ends the route and no longer begins it, for distinct codes and at least two of them |
| Route.LineTable | app.py:63-77 | three codes resolved one unit apart on a line give the table with entries 0, 1, 2 by distance along the line |
| Route.LineStarts | app.py:109-112 | among three different non-empty codes, the first and second are started from their own positions |
| Route.LineFromFirst | app.py:104-116 | for three codes one unit apart on a line, starting from the first gives the codes in listed order |
| Route.LineFromSecond | app.py:104-116 | starting from the middle code gives the middle code, then the first, then the last: the tie goes to the code listed first |
| Route.CollinearRoute | app.py:98-122 | the whole optimiser, started at the first of three collinear, equally spaced codes with no end, returns them in listed order |
| Route.CollinearRouteFromMiddle | app.py:98-122 | started at the middle code with no end, the optimiser returns middle, first, last |
| Route.RemoveMiddle | app.py:120 | the filter drops the one matching value from the middle of three and keeps the others in order |
| Route.LinePinned | app.py:118-121 | pinning the first code as the end of the route middle, first, last gives middle, last, first |
| Route.CollinearRoutePinned | app.py:98-122 | started at the middle code with the first code as end, the optimiser returns middle, last, first |

## Left out

- The web handlers `index` and `download_pdf` (app.py:125-175) are left out. They are form parsing, flash messages, redirects, templates and PDF rendering. Their 2 to 15 code bound is not part of the engine.
- The `APIUsage` table, its initialisation and `select_api_provider` (app.py:12-42) are left out. They are database state and a random provider choice outside the engine.
- `get_coordinates` (app.py:44-56) is the `resolve` parameter. The model does not include its seeded pseudo-random generator or its fallback to seed 0 when an identifier is not an integer. Any deterministic resolver can stand in.
- `compute_euclidean_distance` (app.py:59-61) is the `dist` parameter over exact reals. The model does not include `math.hypot` floating-point rounding. Symmetry and zero self-distance are assumed only where the symmetry lemma needs them.
- Python allows `start` and `end` to be `None` or a string. Both `None` and `""` are falsy, so both map to "not given" here: `None` is `Option.None`, and the empty string is `Some("")`.
- The solver model requires a square table. `nearest_neighbor_tsp` also accepts some tables that are not square, but the assembler only ever passes the square table it builds.
- Determinism and idempotence of the whole computation hold by construction, since every member is a pure function of its arguments. No lemma states them.
