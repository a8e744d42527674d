# Floyd: all-pairs shortest paths, modelled in Dafny

The repository is a single C++ program, `Floyd.cpp`. Its core is the class
`Floyd`: an all-pairs shortest-path engine. It owns a square table of
`size_t` distances between `N` waypoints, stored as one flat row-major
buffer. The largest `size_t` value, `Infinite`, stands for "no path". The
constructor puts 0 on the diagonal and `Infinite` everywhere else.
`GetLong(src, dst)` gives read/write access to cell `src * N + dst`.
`CalculateShortestLong` runs the Floyd–Warshall relaxation in place. It
does one pass, `IterationFloydTable(k)`, for each intermediate waypoint
`k = 0 .. N - 1`. Around the class, `main` reads edge lines, rejects bad
indices and self-loops, and writes each edge in both directions.

The model has five modules:

- `Distances` (distances.dfy): a cell is `Dist = Fin(len) | Inf`. `Infinite`
  and the `SizeT` range are kept, with the conversions between a stored
  `size_t` and a `Dist`. `Relax` is the update of one cell through the
  intermediate waypoint.
- `Tables` (tables.dfy): the table as a flat sequence of `n * n` cells.
  `Idx(n, i, j) = i * n + j` is the row-major address. `At` reads a cell,
  `Initial` is the table a new engine holds, `Write` is a write through
  `GetLong`, `WithEdge` is the symmetric edge write of `main`, `Step` is one
  pass and `Passes(g, n, k)` is the passes `0 .. k - 1` in order. Lemmas
  give what a pass and a series of passes do.
- `Paths` (paths.dfy): routes, their lengths in the input table, and the
  correctness theorem. After all passes, each cell is the length of a
  shortest route, or `Inf` exactly when every route has an unreachable leg.
  Running the passes again changes nothing.
- `Engine` (engine.dfy): the class `Floyd`, with a `const` waypoint count
  and a `const` flat `array<Dist>`. The constructor and the pass are the
  nested loops of the source, proved against `Initial` and `Step`.
  `CalculateShortestLong` is proved against `Passes`. `RecordEdge` is the
  edge handling of `main`. `Recorded` and its lemmas describe a whole run
  of edge lines.
- `Overflow` (overflow.dfy): the cell update on raw `size_t` values, where
  the sum wraps around. See "## Findings".

Arithmetic on finite distances is unbounded in the model. The C++ adds two
`size_t` values without any guard. The main model follows the evident
intent: a sum is compared as a whole number. The wrap-around is kept
separately, as a finding.

The correctness theorems assume the input table has a zero diagonal. The
constructor establishes this. `main` keeps it, because it refuses an edge
from a waypoint to itself (`Engine.RecordedShape`). A caller that writes a
diagonal cell directly through `GetLong` falls outside these theorems.

## Model

| member | source | states |
|---|---|---|
| `Distances.Relax` | Floyd.cpp:76-89 | the new cell is no longer than the old cell and no longer than the route through the pivot, and is one of the two; so an unreachable leg leaves the cell unchanged |
| `Distances.FromSizeT` | Floyd.cpp:8 | a stored `size_t` means "no path" exactly when it equals `Infinite`, and otherwise it is that length |
| `Distances.ToSizeT` | Floyd.cpp:8 | a distance below the sentinel is stored as itself, and "no path" is stored as `Infinite` |
| `Distances.EncodeDecode` | Floyd.cpp:8 | decoding the stored form of a representable distance gives that distance back |
| `Distances.DecodeEncode` | Floyd.cpp:8 | every `size_t` value decodes to a representable distance that encodes back to the same value |
| `Tables.IdxInRange` | Floyd.cpp:12 | every cell (i, j) with i, j < n lies inside the `n * n` buffer |
| `Tables.IdxInjective` | Floyd.cpp:45-48 | two cells share a buffer position exactly when they are the same cell |
| `Tables.IdxDecompose` | Floyd.cpp:12 | every buffer position is the position of some cell (row `p / n`, column `p % n`) |
| `Tables.InitialAt` | Floyd.cpp:15-21 | a new table holds 0 at (i, i) and "no path" at every (i, j) with i ≠ j |
| `Tables.InitialShape` | Floyd.cpp:15-21 | a new table has a zero diagonal and is symmetric |
| `Tables.WriteAt` | Floyd.cpp:45-48 | writing through the reference to (s, t) changes cell (s, t) and no other cell |
| `Tables.WithEdgeAt` | Floyd.cpp:165 | recording an edge sets both (s, t) and (t, s) to the weight and leaves every other cell alone |
| `Tables.WithEdgeKeepsShape` | Floyd.cpp:159-165 | recording an edge between two distinct waypoints keeps a zero diagonal and keeps a symmetric table symmetric |
| `Tables.StepAt` | Floyd.cpp:61-91 | cell (y, x) after the pass through k is the cell relaxed through k, except on row k, column k and the diagonal, where it is the old cell |
| `Tables.StepFrame` | Floyd.cpp:61-89 | the pass through k leaves the diagonal, row k and column k unchanged, never lengthens a cell, and leaves a cell unchanged when a leg through k is unreachable |
| `Tables.StepIsMin` | Floyd.cpp:76-89 | on a zero-diagonal table, the cell after the pass is the shorter of the old cell and the route through k, and is one of the two |
| `Tables.StepTriangle` | Floyd.cpp:76-89 | after the pass through k on a zero-diagonal table, no cell is longer than its route through k in the new table |
| `Tables.StepKeepsShape` | Floyd.cpp:61-91 | a pass keeps a zero diagonal and keeps a symmetric table symmetric |
| `Tables.PassesKeepShape` | Floyd.cpp:53-56 | any number of passes keeps a zero diagonal and keeps a symmetric table symmetric |
| `Tables.PassesNoLonger` | Floyd.cpp:53-56 | after any number of passes no cell is longer than it was in the input table |
| `Engine.StepPivotCell` | Floyd.cpp:63-66 | every buffer position in row k keeps its value in the pass through k |
| `Engine.DonePivotRow` | Floyd.cpp:63-66 | skipping row k moves the in-place pass n positions on without changing the buffer |
| `Engine.DoneRelax` | Floyd.cpp:76-89 | when cell (y, x) is visited, its legs (y, k) and (k, x) still hold their old values although earlier cells are already updated, so relaxing it in the partly updated buffer gives the cell of `Step` |
| `Engine.DoneSkip` | Floyd.cpp:70-73 | visiting a cell on the diagonal or in column k leaves the partly updated buffer as it is |
| `Paths.PassesSound` | Floyd.cpp:53-89 | after the passes through 0 .. k - 1, no route from i to j whose intermediate waypoints are below k is shorter than cell (i, j) |
| `Paths.PassesWitness` | Floyd.cpp:53-89 | after the passes through 0 .. k - 1, a finite cell (i, j) is the length of some route from i to j whose intermediate waypoints are below k |
| `Paths.ShortestPaths` | Floyd.cpp:50-57 | after all passes, cell (i, j) is no longer than any route from i to j and, when finite, is the length of one: the shortest route length |
| `Paths.Unreachable` | Floyd.cpp:50-57 | after all passes, cell (i, j) is "no path" exactly when every route from i to j has an unreachable leg |
| `Paths.PassesClosed` | Floyd.cpp:50-57 | after all passes, every cell (y, x) is no longer than (y, k) plus (k, x), for every k |
| `Paths.StepClosed` | Floyd.cpp:61-91 | a pass over a table that already satisfies the triangle inequality changes nothing |
| `Paths.PassesOfClosed` | Floyd.cpp:53-56 | any number of passes over such a table changes nothing |
| `Paths.PassesIdempotent` | Floyd.cpp:50-57 | running all the passes a second time gives the same table as running them once |
| `Engine.CheckEdge` | Floyd.cpp:153-163 | an edge line is accepted exactly when both indices are below n and differ; an out-of-range index is reported as such, before the self-loop check |
| `Engine.RecordedShape` | Floyd.cpp:153-165 | whatever edge lines are entered, the table `main` builds has a zero diagonal and is symmetric |
| `Engine.RecordedThenRelaxed` | Floyd.cpp:165-169 | the table `main` builds and then relaxes is symmetric and holds shortest route lengths |
| `Engine.Floyd.constructor` | Floyd.cpp:10-22 | the engine holds the given count and a fresh buffer of count × count cells equal to `Initial(count)` |
| `Engine.Floyd.GetWpCount` | Floyd.cpp:40-43 | returns the count given to the constructor; the count is a constant that no method can change |
| `Engine.Floyd.GetLong` | Floyd.cpp:45-48 | returns cell (src, dst), which lives at buffer position `src * count + dst` |
| `Engine.Floyd.SetLong` | Floyd.cpp:45-48 | a write through the returned reference changes that cell's position in the buffer and nothing else |
| `Engine.Floyd.RecordEdge` | Floyd.cpp:153-165 | rejects an index outside the table, then a self-loop; otherwise writes the weight to (dst, src) and to (src, dst) |
| `Engine.Floyd.RelaxCell` | Floyd.cpp:76-89 | cell (y, x) becomes the old cell relaxed through k; every other buffer position is unchanged |
| `Engine.Floyd.RelaxRow` | Floyd.cpp:68-90 | after the inner loop over row y ≠ k, the buffer holds the new values up to the end of row y and the old values after it |
| `Engine.Floyd.IterationFloydTable` | Floyd.cpp:59-92 | the buffer after the in-place pass through k equals `Step` of the buffer before it |
| `Engine.Floyd.CalculateShortestLong` | Floyd.cpp:50-57 | the buffer after the loop equals `Passes` of the buffer before it, over all count waypoints in increasing order |
| `Overflow.RelaxSizeT` | Floyd.cpp:76-89 | the cell update on raw `size_t` values, with the sum wrapping modulo 2^64, never makes a cell larger |
| `Overflow.RelaxSizeTAgrees` | Floyd.cpp:79-89 | when a leg is `Infinite`, or the two legs add up to less than `Infinite`, the raw update agrees with `Distances.Relax` |
| `Overflow.WrapAroundShortcut` | Floyd.cpp:84-89 | with two legs of 2^63 through k, the raw update turns an unreachable cell into 0, while the intended update gives 2^64 |

## Left out

- Console input and output in `main` (prompts, `getline`, `sscanf` parsing and re-prompting, Floyd.cpp:106-151) are not modelled. `RecordEdge` takes an edge line that is already parsed.
- The place-name lookup (`std::unordered_map`) and the query loop (Floyd.cpp:103, 128-133, 171-206) are not modelled. They are a library container and interactive I/O. A query is `GetLong`.
- The destructor, `new[]`/`delete[]`, and the deleted copy and move operations (Floyd.cpp:12, 24-37) are not modelled. They only manage the buffer's lifetime. Allocation failure is not modelled either.
- Engine.Floyd.GetLong: the C++ method returns a mutable reference. The model splits it into a read (`GetLong`) and a write through that reference (`SetLong`).
- Engine.Floyd.IterationFloydTable: the inner loop is the separate method `RelaxRow`, and its body is the separate method `RelaxCell`. This keeps each proof small. It does not change what the pass does or the order in which it visits cells.
- Distances.Relax: finite sums are unbounded, so the wrap-around of the `size_t` addition at Floyd.cpp:84 is not part of the main model. It is modelled in `Overflow`, and reported under "## Findings". A finite length at or above `Infinite` has no `size_t` encoding, so such a table cell has no counterpart in the C++ buffer.
- Engine.Floyd.constructor: a count of 0 is accepted and gives an empty table, as in the C++, which does not reject it.
- Engine.Floyd.RecordEdge: the `szIptSrc < 0` and `szIptDst < 0` tests (Floyd.cpp:153-154) are never true for unsigned values, so only the upper bound is modelled. A typed weight equal to `Infinite` is stored as "no path", as the C++ would store it.
- The worked five-waypoint example (edges 0-1:20, 1-2:30, 2-3:50, 3-0:40, 2-4:60, 3-4:70) is not proved as a concrete instance. `Paths.ShortestPaths` covers it in general.
- Paths.ShortestPaths: the theorems assume a zero diagonal in the input table. The code does not enforce this. The constructor and `main` establish it, but a direct write to a diagonal cell would break it.

## Findings

| source | as written | input that shows it | evidently intended | confidence | as-written member | corrected member |
|---|---|---|---|---|---|---|
| Floyd.cpp:84-89 | the two finite legs are added as `size_t`, which wraps modulo 2^64. The wrapped sum is then compared with the cell and stored. | cells (y, k) and (k, x) both 2^63, cell (y, x) `Infinite`: the pass stores 0 in (y, x) | the sum of two finite legs is computed without wrapping and compared with the cell as a whole number; a shorter sum is stored as a finite length, even when it is at or above `Infinite` | high (not executed) | `Overflow.WrapAroundShortcut` | `Distances.Relax` |
