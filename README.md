# CityLink in Dafny

CityLink reads a road map of N cities as an N×N adjacency matrix of C
`int`s. Cell (i, j) is non-zero when there is a direct road from city i to
city j. The program answers two questions about the map:

- **Route search ("-r s,d").** `findPath` runs a depth-first search with
  backtracking over a `visited` array and a `path` buffer. It tries
  neighbours in ascending order and prints the first route it finds to the
  destination.
- **Transitive closure ("-p", "-o").** `calculateTransitiveClosure` copies
  the matrix into a closure table and prints every pair "u -> w" whose cell
  is 1. It then repeats rounds: each round snapshots the table into
  `previous` and, for u, v, w ascending, sets and prints (u, w) when
  `previous[u][v]` is non-zero, the matrix has v -> w, the table's cell
  (u, w) is still zero and u != w. The rounds stop after one that prints
  nothing.

The model keeps the program's form:

- matrices are `array2<int>`;
- `visited` and `path` are arrays;
- `findPath` is a recursive method that marks, writes, recurses and unmarks
  in place;
- the closure is a method with the same nested loops.

Each method is proved against value-level definitions over
`seq<seq<int>>` tables (`Graph`, `PathSearch`'s predicates and
`ClosureSpec`). Properties of the program are then proved about those
definitions.

Modules:

- `Graph`: tables, walks, routes, reachability; cycles can be cut out of a
  route; a table closed under edges holds every reachable pair.
- `MatrixStore`: `createMatrix`, the copy loops, and `readAdjacencyMatrix`
  over the input's integers, given as a `seq<int>` of tokens.
- `PathSearch`: `findPath` (with its neighbour loop as `TryNeighbours`) and
  the search `implementR` starts.
- `ClosureSpec`: what the closure prints, as values: phase 1, one round, all
  rounds, and what the output and the final table contain.
- `Closure`: `calculateTransitiveClosure` over arrays. Each loop level of the
  round is a method.

Some of what is proved about the source:

- **The search.** `findPath` succeeds exactly when the destination can be
  reached through unmarked cities. What it leaves in `path` is then the
  lexicographically least simple route, because neighbours are tried in
  ascending order, and `visited` marks exactly the cities of the filled
  path. On failure, `visited` and the filled part of `path` are as they
  were on entry. From a cleared `visited` array the search succeeds
  exactly when the destination is reachable at all, and the route fits the
  N-slot buffer.
- **What the closure prints.** Phase 1 prints exactly the cells equal to 1,
  in row-major order. Each round prints exactly the cells it changes, only
  off-diagonal cells, each once and set to 1. A non-empty round turns at
  least one zero cell into 1, so the rounds stop. Over the whole run, a pair
  is printed exactly when its matrix cell is 1, or when its cell is 0,
  u != w and w is reachable from u by one or more roads. No pair is printed
  twice. The final table holds exactly the matrix's cells plus every
  off-diagonal reachable pair.
- **Values other than 0 and 1.** The model keeps the source's two different
  tests. Phase 1 prints a cell only when it equals 1, while the rounds treat
  any non-zero cell as a road. So a cell holding, say, 2 counts as a road
  but is never printed in either phase. `ClosureSpec.ClosureOutputExact`
  states this.
- **Phase 2 is reachability off the diagonal.** Phase 2 prints exactly the
  pairs (u, w) with u != w that are reachable and whose matrix cell is 0. A
  city on a cycle is never printed as reaching itself, because of the
  `u != w` test at cityLink.c:372. Within a round, rows come in ascending
  order, then pivots v in ascending order, and each pivot's cells come by
  column.
- **The loader.** It reads the count, then N·N entries row by row. It fails
  when the count is missing or the entries run out. cityLink.c:181-200 never
  checks the count's sign, and the model follows the code: a count of zero
  gives an empty matrix, and so does a negative count.

## Model

| member | source | states |
|---|---|---|
| MatrixStore.Rows | cityLink.c:163-170 | definition: the number of rows createMatrix allocates for a count read from the input, the count itself when it is not negative and no rows when it is |
| MatrixStore.CreateMatrix | cityLink.c:163-170 | a fresh N×N table with every cell zero |
| MatrixStore.CopyTable | cityLink.c:336-340 | after the copy loops the destination table equals the source table; the source is not written |
| MatrixStore.ReadAdjacencyMatrix | cityLink.c:181-200 | fails with a missing count exactly when there are no tokens; otherwise loads exactly when 1 + N·N tokens are present, the error being a missing entry; cell (i, j) is token 1 + i·N + j; a count below zero gives 0 rows; a loaded matrix is freshly allocated |
| Graph.SimpleRouteFits | cityLink.c:282-283 | a route without repeated cities has at most N cities, so it fits the N-slot path buffer |
| Graph.CutCycle | cityLink.c:223-226 | removing the stretch between two visits of one city leaves a route with the same ends |
| Graph.ShortenToSimple | cityLink.c:223-226 | every route can be shortened to a simple route with the same ends |
| Graph.ReachableBySimpleRoute | cityLink.c:223-226 | reachability by routes and by simple routes (the only ones a visited-marking search can follow) coincide |
| Graph.ClosedCoversReachable | cityLink.c:368-386 | a table holding the edges and closed under following one more edge off the diagonal holds every off-diagonal reachable pair |
| PathSearch.TrailRoom | cityLink.c:204-206 | while the source is unmarked, the filled part of the path is shorter than N, so path[pathIndex] is in bounds |
| PathSearch.TrailExtend | cityLink.c:204-206 | marking the source and appending it keeps marked cities and path cities the same set, without repeats |
| PathSearch.StepOff | cityLink.c:223-226 | a free route that does not end at the source leaves it by an edge, and its remainder is free once the source is marked |
| PathSearch.FirstFreeRouteHere | cityLink.c:210-220 | at the destination, the one-city route is the least free route |
| PathSearch.FirstFreeRouteThrough | cityLink.c:223-226 | source followed by the least route from the first neighbour that can still reach the destination is the least route from the source |
| PathSearch.NoFreeRoute | cityLink.c:223-233 | when no unmarked neighbour can reach the destination, the source cannot either |
| PathSearch.FindPath | cityLink.c:202-234 | succeeds exactly when the destination is reachable avoiding marked cities; on success the filled path is the prefix followed by the least free route, and visited marks exactly the cities of that path (the entry marks plus the route's cities, as nothing is unmarked on success); at the destination it succeeds with one more city; on failure visited and the path prefix are as on entry |
| PathSearch.TryNeighbours | cityLink.c:223-233 | the neighbour loop finds a route exactly when one exists through an unmarked neighbour, returns the least, and then visited marks exactly the cities of the filled path; otherwise it leaves visited and the path as it found them |
| PathSearch.NothingMarked | cityLink.c:282-286 | with a cleared visited array, free routes are simple routes and the search's condition is plain reachability |
| PathSearch.SearchRoute | cityLink.c:282-290 | from a cleared visited array and slot 0: found exactly when the destination is reachable; the route is simple, at most N long and lexicographically least; source = destination gives [source]; a destination outside [0, N) is never found, as the C search then runs to the end and returns 0 |
| ClosureSpec.RowOnes | cityLink.c:345-352 | definition: the cells of row u equal to 1, in column order, as the inner loop of phase 1 prints them |
| ClosureSpec.DirectEdges | cityLink.c:344-353 | definition: phase 1's output, the rows' cells equal to 1 one row after another |
| ClosureSpec.Hit | cityLink.c:370-372 | definition: pivot v reaches (u, w) when the snapshot previous[u][v] is non-zero and the matrix has v -> w |
| ClosureSpec.HitBelow | cityLink.c:369-372 | definition: some pivot below count reaches (u, w) |
| ClosureSpec.Open | cityLink.c:372 | definition: the snapshot cell (u, w) is zero and u != w, the cells a round may set |
| ClosureSpec.FirstHit | cityLink.c:370-373 | definition: the test at line 372 holds for pivot v: v reaches (u, w), the cell is open, and no lower pivot has already set it in this round |
| ClosureSpec.CellAfter | cityLink.c:372-373 | definition: the live value of transitiveClosure[u][w] once pivots below count are tried: 1 when the cell is open and some such pivot reaches it, the snapshot value otherwise |
| ClosureSpec.NextTable | cityLink.c:368-386 | definition: the table after one round, every cell as CellAfter leaves it once all pivots are tried |
| ClosureSpec.CellEmits | cityLink.c:371-383 | definition: what pivot v's w loop prints for row u, the first hits in ascending w |
| ClosureSpec.RowEmits | cityLink.c:369-385 | definition: what row u prints in a round, the pivots' lists in ascending v |
| ClosureSpec.Round | cityLink.c:368-386 | definition: what a round prints, the rows' lists in ascending u |
| ClosureSpec.Expansion | cityLink.c:357-387 | definition: phase 2's output, the rounds' lists one after another until a round prints nothing |
| ClosureSpec.FinalTable | cityLink.c:357-387 | definition: the closure table when the while loop stops |
| ClosureSpec.ClosureOutput | cityLink.c:330-392 | definition: everything calculateTransitiveClosure prints, phase 1 then phase 2 |
| ClosureSpec.RowOnesFacts | cityLink.c:345-352 | one row of phase 1 lists exactly its cells equal to 1, in column order |
| ClosureSpec.OnesFacts | cityLink.c:344-353 | the first rows of phase 1 list exactly their cells equal to 1, in row-major order |
| ClosureSpec.DirectEdgesExact | cityLink.c:344-353 | phase 1 lists exactly the cells equal to 1, in row-major order, each once |
| ClosureSpec.CellEmitsFacts | cityLink.c:371-383 | for a pivot v, row u's w loop lists exactly the cells (u, w) that v reaches first, each once |
| ClosureSpec.RowEmitsFacts | cityLink.c:369-385 | row u lists exactly its zero off-diagonal cells that some pivot v reaches, each once |
| ClosureSpec.RoundEmitsFacts | cityLink.c:368-386 | a round lists exactly the zero off-diagonal cells reached through the snapshot and one edge, each once |
| ClosureSpec.CellEmitsOrdered | cityLink.c:371-383 | a pivot's w loop prints its cells in ascending column order |
| ClosureSpec.RoundOrder | cityLink.c:368-386 | a round prints its pairs with rows never decreasing, and each pivot's list is in column order |
| ClosureSpec.RoundRow | cityLink.c:368-386 | row u's output is one contiguous block of the round's output, coming right after the output of rows 0 .. u-1 |
| ClosureSpec.RoundExact | cityLink.c:368-386 | a round lists exactly the cells it changes, each once; every other cell keeps its value; a changed cell is off the diagonal and becomes 1 |
| ClosureSpec.QuietRound | cityLink.c:358-387 | a round that lists nothing leaves the table unchanged, so the loop stops with the closure |
| ClosureSpec.RoundShrinks | cityLink.c:358-387 | a round that lists something strictly shrinks the set of zero cells, so the loop terminates |
| ClosureSpec.FinalGrows | cityLink.c:368-387 | across the rounds the table only grows: a cell keeps its value or goes from zero to 1 off the diagonal |
| ClosureSpec.ExpansionExact | cityLink.c:358-387 | phase 2 lists exactly the cells that were zero and are set at the end, each once |
| ClosureSpec.FinalClosed | cityLink.c:358-387 | when the rounds stop, the table is closed under following one more edge off the diagonal |
| ClosureSpec.RoundSound | cityLink.c:368-386 | a round sets only cells whose cities are joined by one or more roads |
| ClosureSpec.FinalSound | cityLink.c:358-387 | every set cell of the final table joins cities linked by one or more roads |
| ClosureSpec.FinalTableExact | cityLink.c:330-387 | the final table's cell (u, w) is set exactly when the matrix cell is, or u != w and w is reachable from u; the diagonal keeps the matrix values |
| ClosureSpec.ClosureOutputExact | cityLink.c:330-392 | a pair is printed exactly when its cell is 1, or its cell is 0, u != w and w is reachable from u; nothing is printed twice; phase 1 comes first |
| Closure.EmitDirect | cityLink.c:344-353 | the phase 1 loops list the cells equal to 1, row by row |
| Closure.CellStep | cityLink.c:372-373 | the w loop's test holds exactly for the first pivot that reaches (u, w), and afterwards the cell holds what the pivots up to v leave there |
| Closure.ThroughPivot | cityLink.c:371-383 | for a pivot v with previous[u][v] set, the w loop lists what v reaches first, raises repeat exactly when it lists something, and advances row u by one pivot; other rows are not changed |
| Closure.ExpandRow | cityLink.c:369-385 | the v and w loops list row u's output for the round and leave row u as in the next table; other rows are not changed |
| Closure.ExpandRows | cityLink.c:368-386 | the u, v and w loops list the round's output and leave every row as in the next table |
| Closure.ExpandRound | cityLink.c:359-386 | one pass of the while loop: the table becomes the round's next table, the pairs printed are the round's output, and repeat is raised exactly when something was printed; previous is left holding the table as it was before the round |
| Closure.CalculateTransitiveClosure | cityLink.c:330-392 | the pairs printed are phase 1 followed by every round's output until a quiet round; the final table is the value-level closure table |

## Left out

- Command-line handling (`main`, `getopt`, cityLink.c:1-160) and the
  `implementI`/`implementP`/`implementO` wrappers (cityLink.c:237-326).
  These are file opening, printing of the neighbour table and naming of the
  "out-" file, all I/O.
- Printing. "Yes Path Exists!", the path line, "No Path Exists!" and the
  "u -> w" lines, to the screen or to a file, are replaced by returned
  values: `route` and the list of pairs. The `printToFile` switch only
  chooses the stream, so it does not appear.
- Token input. `fscanf` tokenisation is not modelled: the input file is
  given as its sequence of integers. A token that does not parse ends the
  sequence, and the loader then fails the same way.
- Memory. `freeMatrix`, `free` and allocation failure of `malloc`/`calloc`
  are left out (memory management).
- `MatrixStore.Rows`: when the count is negative, C's `createMatrix`
  computes `N * sizeof(int *)`, which converts to a huge `size_t`, so
  `malloc` almost surely returns NULL. The global `N` stays negative, while
  the model's dimension is 0. Every loop over N is empty either way, so
  nothing is read or written; allocation failure itself is not modelled.
- `PathSearch.SearchRoute`: `implementR` does not check that the source
  city lies in [0, N); outside that range `findPath` writes
  `visited[source]` out of bounds. The model requires the source in range.
  The destination is only compared, never used as an index, so any
  destination is accepted; one outside [0, N) is a defined "No Path
  Exists!".
- The `sscanf` parse of "s,d" is left out (argument parsing).
- Globals. The globals `N` and `cityMatrix` are passed explicitly, and N is
  the dimension of the matrix array. `calculateTransitiveClosure`'s matrix
  parameter shadows the global, which the model merges.
- Integer width. Matrix cells are only copied and compared with 0 and 1, and
  indices stay below N, so unbounded `int` loses nothing.
- Arrays. `visited` is an `array<bool>` rather than an `int` array; the
  source only stores 0 and 1 in it.
- Loop structure. `findPath`'s loop over neighbours is the method
  `TryNeighbours`, and each loop level of a closure round (`ExpandRows`,
  `ExpandRow`, `ThroughPivot`) is a method of its own, so each proof stays
  small. Their order and effects are the source's.
