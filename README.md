# mepfinder core in Dafny

mepfinder finds minimum-energy paths on a regular n-dimensional grid that
carries a potential. This project models its core and proves properties
of that model:

- **Grid index algebra** (`floodfill/grid.py`, module `Grid`, file
  `grid.dfy`). It covers node counts, row-major strides, the flat index of
  a coordinate-index tuple and its inverse by repeated divmod, the table of
  neighbour offsets `{-1,0,1}^d` without the zero vector, the in-bounds
  neighbours of a node, and snapping a point to the nearest grid node.
- **The potential wrapper** (`MinEnergyPath/grid_func.py`, module
  `GridFunc`, file `grid_func.dfy`). It covers the size check of the
  constructor, the NaN-free neighbours, greedy descent to a local minimum,
  both loops of `g_minimize` that turn bound arguments into a half-open
  index box, and the `nanargmin` of the box.
- **The older variant** of the wrapper (`floodfill/gridFunc.py`, module
  `FloodfillGridFunc`, file `floodfill_grid_func.dfy`). It shares
  everything above except `minimize`, which takes coordinate indices and
  does not snap, and the first loop of `g_minimize`, which treats
  `(None,)` as None. The shared members `GridFunc.NewGridFunc`,
  `GridFunc.ValidNeighborsSpec`, `GridFunc.MinimizeIdx`,
  `GridFunc.FilterMinSpec`, `GridFunc.ResolveBoundSpec` and
  `GridFunc.GMinimizeTooMany` model the same code in
  `floodfill/gridFunc.py` (lines 126-129, 163-167, 23-35, 38-56, 78-98
  and 63-64).
- **The rank permutation** of `Flooder.__init__` (module `Ranking`, file
  `ranking.dfy`). `argsort` is modelled as the unique strictly sorted
  permutation under "potential ascending, NaN last, ties by flat index",
  and its inverse as an index lookup.
- **The two-colour priority flood** (`MinEnergyPath/flooder.py`, module
  `Flooding`, file `flooder.dfy`). The class `Flooding.Flooder` keeps the
  colour and parent arrays as Dafny `array`s and the heap as a sequence.
  Its methods follow `_flood_init`, `_floodfill`, `_follow_path` and
  `flood`, loop by loop. The proofs rest on an invariant of the colour and
  parent arrays (a forest rooted at the two seeds) and of the heap.
- **The path records** (`MinEnergyPath/path.py`, module `Paths`, file
  `path.dfy`). A `Point` is a map of attributes with defaults. A `Path` is
  a class over a list of points, with Python's list-index semantics for
  get, set, delete and insert, and the column view `__getattr__`.

`common.dfy` holds the shared types:

- `Option` and `Result`, where an error meaning "the Python code raises
  X" is written `Err(X)`;
- `Pot`, a potential that is a number or an explicit NaN;
- the comparisons Python and numpy apply to such values.

Potentials are exact reals with an explicit NaN case. Grid vectors are
the exact values `start + k*(stop-start)/(num-1)`.

### Where the code and its design description differ (the model follows the code)

- `idx` does no bounds check. A tuple outside the shape gives whatever the
  dot product gives. Only a later array access fails, with IndexError.
- `flood` does not check its seeds. A NaN seed is flooded like any other
  node. Identical seeds are not rejected either: the second colour
  overwrites the first, so no colour-1 front exists and the flood ends in
  EmptyHeapError.
- The failure described as "disconnected" is `EmptyHeapError`, raised
  when the heap runs empty before the fronts meet. An empty box raises
  numpy's `ValueError("attempt to get argmin of an empty sequence")`,
  because `nanargmin` calls `argmin` first; a non-empty box with no valid
  potential raises `ValueError("All-NaN slice encountered")`.
- The coordinate vectors are not assumed sorted. `searchsorted` is
  modelled as numpy's bisection, which on a sorted vector is proved to
  split it at x and to agree with a scan for the first value not below x;
  grid vectors are sorted when `start <= stop`. On an axis running
  downwards the two differ.
- The flood is described as finding a minimax path, one whose highest
  potential is as low as that of any other path. As written it does not.
  `_floodfill` stops after the first expansion that touches the other
  colour, and that touched node may only have been pushed, never popped,
  whatever its potential. Take a 3x3 grid with flat potentials
  (0, 9, 0, 1, 9, 1, 1, 1, 1) and seeds at flat indices 0 and 2. Expanding
  node 0 claims nodes 1, 3 and 4. Expanding seed 2 then meets nodes 1 and
  4, both of potential 9, and the path is (0, 1, 2) or (0, 4, 2), with
  highest potential 9. The walk 0, 3, 7, 5, 2 joins the seeds through
  nodes of potential 1. The outcome is the same whichever seed is popped
  first. The model computes the code as written and states no minimax
  property.
- `identiy_idx = (n - 1) / 2` is Python 2 integer division. The model uses
  integer division too and proves that `3^d` is odd, so nothing is lost.

## Model

| member | source | states |
|---|---|---|
| Grid.InitNnodes | floodfill/grid.py:42-48 | the accumulating loop returns the product of all shape entries |
| Grid.ProdPositive | floodfill/grid.py:43-48 | a shape with no empty axis has at least one node |
| Grid.InitDimOffsets | floodfill/grid.py:64-74 | one stride per axis; stride i is the product of shape[i+1:], so the last stride is 1 |
| Grid.StridesCons | floodfill/grid.py:64-74 | the strides of a shape are the product of its tail followed by the strides of the tail |
| Grid.NewGrid | floodfill/grid.py:11-17 | the constructor caches a valid grid: shape and extents from the linspace triples, one linspace vector per axis, node count, strides and offset table as defined |
| Grid.LinspaceVec | floodfill/grid.py:51-62 | an axis has num values, starts at start and, when num > 1, ends at stop |
| Grid.LinspaceLast | floodfill/grid.py:57 | the last of num > 1 evenly spaced values is stop itself |
| Grid.CartesianMember | floodfill/grid.py:82 | a tuple is in `product(*ranges)` exactly when each component lies in its range |
| Grid.CartesianDistinct | floodfill/grid.py:82 | `product` lists no tuple twice |
| Grid.CubeMiddle | floodfill/grid.py:80-83 | `{-1,0,1}^d` in lexicographic order has 3^d entries and the zero vector at position (3^d-1)/2 |
| Grid.MidHalf | floodfill/grid.py:80-81 | 3^d is odd, so the Python 2 floor division `(n - 1) / 2` is exact |
| Grid.IdentityIdx | floodfill/grid.py:81 | the popped position is the middle of the product |
| Grid.NeighborOffsetsPop | floodfill/grid.py:76-87 | the offset table is the product with exactly the zero vector popped |
| Grid.NeighborOffsetsSpec | floodfill/grid.py:76-87 | the table has 3^d - 1 distinct entries, and an offset is in it exactly when it has d components in {-1,0,1}, not all zero |
| Grid.NeighborOffsetsCount | floodfill/grid.py:76-87 | the offset table has 3^d - 1 entries |
| Grid.NeighborOffsetsMember | floodfill/grid.py:76-87 | membership in the table is exactly being a unit step |
| Grid.UnitStepIff | floodfill/grid.py:76-87 | a unit step has d entries in {-1,0,1} and at least one nonzero entry, and conversely |
| Grid.RemoveAtMember | floodfill/grid.py:83 | popping from a repeat-free list removes exactly that element |
| Grid.Idx | floodfill/grid.py:100-103 | an in-bounds tuple has a flat index in [0, nnodes) |
| Grid.DotBound | floodfill/grid.py:100-103 | the stride dot product of an in-bounds tuple lies in [0, product of shape) |
| Grid.CoordsOf | floodfill/grid.py:105-112 | for 0 <= i < nnodes the divmod tuple is in bounds and maps back to i |
| Grid.CoordsIdx | floodfill/grid.py:105-112 | the divmod loop computes CoordsOf, so its tuple is in bounds and inverts Idx |
| Grid.UnravelDot | floodfill/grid.py:100-112 | divmod by the strides undoes the dot product on in-bounds tuples |
| Grid.DotUnravel | floodfill/grid.py:100-112 | the dot product undoes divmod on flat indices, and the divmod tuple is in bounds |
| Grid.CoordsOfIdx | floodfill/grid.py:100-112 | coords_idx(idx(c)) == c for every in-bounds tuple |
| Grid.IdxCoordsOf | floodfill/grid.py:100-112 | idx(coords_idx(i)) == i for every flat index |
| Grid.NeighborsAtMember | floodfill/grid.py:118-125 | the filtered list holds exactly the flat indices of the in-bounds sums c + o over the table |
| Grid.NeighborsIdx | floodfill/grid.py:118-125 | at most one neighbour per offset of the table; which ones is NeighborsIdxSpec |
| Grid.NeighborsIdxCount | floodfill/grid.py:118-125 | a node has at most 3^d - 1 neighbours |
| Grid.NeighborsIdxSound | floodfill/grid.py:118-125 | every listed neighbour is a node at Chebyshev distance exactly 1, never the node itself |
| Grid.NeighborsIdxComplete | floodfill/grid.py:118-125 | every node at Chebyshev distance 1 is listed |
| Grid.NeighborsIdxSpec | floodfill/grid.py:118-125 | j is listed exactly when it is a node touching i |
| Grid.NeighborsSymmetric | floodfill/grid.py:118-125 | the neighbour relation is symmetric |
| Grid.NeighborsInRange | floodfill/grid.py:118-125 | every listed neighbour is a flat index in [0, nnodes) |
| Grid.InteriorNeighborCount | floodfill/grid.py:118-125 | a node no closer than 1 to any face has exactly 3^d - 1 neighbours |
| Grid.Neighbors | floodfill/grid.py:114-116 | for an in-bounds tuple, the neighbours are exactly the nodes touching it |
| Grid.TupleNeighbors | floodfill/grid.py:114-116 | neighbors(c) lists exactly the nodes touching c, as neighbors_idx(idx(c)) does |
| Grid.ArgMinAbs | floodfill/grid.py:92 | `argmin(abs(v - x))`: an index of least distance, the first of them |
| Grid.MapNearest | floodfill/grid.py:89-93 | per axis, independently: an index in [0, shape[k]) whose grid value is closest to the coordinate, the first such; zip truncates to the shorter length |
| Grid.Coords | floodfill/grid.py:95-98 | one coordinate per index: entry k is axis k's grid value at index c[k] |
| Grid.NearestIsClosest | floodfill/grid.py:89-98 | a full point snaps to an in-bounds node whose coordinates are, axis by axis, as close as any grid coordinate |
| Grid.ExampleGrid | floodfill/grid.py:152-168 | the self-test values: 3000 nodes, strides (150, 10, 1), (9, 6, 7) <-> 1417 |
| GridFunc.NewGridFunc | MinEnergyPath/grid_func.py:117-120 | construction succeeds exactly when the potential has nnodes entries, and otherwise raises AssertionError |
| GridFunc.FilterValid | MinEnergyPath/grid_func.py:159-162 | keeps exactly the indices whose potential is not NaN |
| GridFunc.FilterValidAppend | MinEnergyPath/grid_func.py:159-162 | the filter works element by element, so the survivors keep their order |
| GridFunc.ValidNeighbors | MinEnergyPath/grid_func.py:159-162 | every returned neighbour has a valid potential |
| GridFunc.ValidNeighborsSpec | MinEnergyPath/grid_func.py:159-162 | j is returned exactly when it is a grid neighbour of i with a non-NaN potential |
| GridFunc.Scan | MinEnergyPath/grid_func.py:27-31 | one pass of the for loop ends at the start or at a strictly lower neighbour, and no scanned neighbour is strictly below the result |
| GridFunc.ScanStays | MinEnergyPath/grid_func.py:25-31 | when no neighbour is strictly lower, the pass does not move |
| GridFunc.Step | MinEnergyPath/grid_func.py:25-31 | one pass stays put or moves strictly down |
| GridFunc.BelowShrinks | MinEnergyPath/grid_func.py:21-32 | moving strictly down shrinks the set of strictly lower nodes, so the while loop terminates |
| GridFunc.DescendIsLocalMin | MinEnergyPath/grid_func.py:21-32 | the descent ends at a node with no strictly lower valid neighbour |
| GridFunc.DescendNotHigher | MinEnergyPath/grid_func.py:21-32 | the descent ends at the start or strictly below it |
| GridFunc.DescendFixesLocalMin | MinEnergyPath/grid_func.py:21-32 | a local minimum is its own descent |
| GridFunc.DescendIdempotent | MinEnergyPath/grid_func.py:21-32 | descending twice gives the same node as descending once |
| GridFunc.MinimizeIdx | MinEnergyPath/grid_func.py:21-32 | the while-not-found_min loop returns the descent: a local minimum not above the start |
| GridFunc.Minimize | MinEnergyPath/grid_func.py:15-19 | coords_idx of the descent from idx(map_nearest(coords)): an in-bounds local minimum |
| GridFunc.CartesianIndex | MinEnergyPath/grid_func.py:34-51 | the k-th cell of a box in row-major order is the lower corner plus unravel_index(k, widths) |
| GridFunc.CartesianSize | MinEnergyPath/grid_func.py:37 | a box has the product of its widths as cell count |
| GridFunc.BoxInBounds | MinEnergyPath/grid_func.py:34-51 | every cell of a box that lies within the shape is an in-bounds tuple inside the box |
| GridFunc.NanArgMin | MinEnergyPath/grid_func.py:39 | `nanargmin`: a valid entry of least value, the first of them |
| GridFunc.EmptyBoxCells | MinEnergyPath/grid_func.py:35-39 | a box has no cells exactly when one of its axes is empty |
| GridFunc.FilterMin | MinEnergyPath/grid_func.py:34-51 | a result is a tuple with one index per axis, and every failure is a ValueError; which node and which message is FilterMinSpec |
| GridFunc.FilterMinSpec | MinEnergyPath/grid_func.py:34-51 | succeeds exactly when the box holds a valid node, and returns a valid node of the box whose potential is at most any valid potential in the box; an empty box raises ValueError("attempt to get argmin of an empty sequence"), a non-empty box with no valid node ValueError("All-NaN slice encountered") |
| GridFunc.NormalizeArg | MinEnergyPath/grid_func.py:59-68 | a non-sequence raises TypeError('encountered not allowed argument type'); an accepted bound has one or two items |
| GridFunc.NormalizeAllSpec | MinEnergyPath/grid_func.py:59-68 | the first loop succeeds exactly when every argument passes, then holds each argument's bound; otherwise it raises the error of the first failing argument |
| GridFunc.NormalizeErrStays | MinEnergyPath/grid_func.py:59-68 | once an argument has raised, the later ones change nothing |
| GridFunc.CollectBounds | MinEnergyPath/grid_func.py:54-68 | the loop filling `bounds` yields the checked bounds padded with None to dim, or the first error |
| GridFunc.SearchSorted | MinEnergyPath/grid_func.py:82-87 | numpy's left `searchsorted` as a bisection of [0, n): an insertion point in [0, n] |
| GridFunc.Bisect | MinEnergyPath/grid_func.py:82-87 | the bisection of a window [lo, hi) ends inside it |
| GridFunc.FirstNotBelow | MinEnergyPath/grid_func.py:82-87 | the reference scan: everything before it is below x, and the entry at it (if any) is not |
| GridFunc.BisectSplits | MinEnergyPath/grid_func.py:82-87 | on a sorted vector, a window whose left side is below x and whose right side is not ends at the split point of x |
| GridFunc.SearchSortedSplits | MinEnergyPath/grid_func.py:82-87 | on a sorted vector the entries below the insertion point are exactly those below x, and the bisection equals the scan |
| GridFunc.SearchSortedDescending | MinEnergyPath/grid_func.py:82-87 | on the descending axis [5, 4, 3, 2, 1] with x = 4.5 the bisection gives 5 where the first value not below x is at 0 |
| GridFunc.LinspaceSorted | floodfill/grid.py:57 | a linspace axis with start <= stop is sorted |
| GridFunc.ResolveBound | MinEnergyPath/grid_func.py:71-90 | a resolved range never leaves its axis: 0 <= lb and ub <= n |
| GridFunc.ResolveBoundSpec | MinEnergyPath/grid_func.py:71-90 | None selects (0, n); a point selects the single nearest index (p, p+1); on a sorted axis a pair selects exactly the values in [lb, ub), with an open side for None; `(None,)` raises the interpreter's TypeError (`None - gv`); a resolved range stays inside the axis |
| GridFunc.ResolveAll | MinEnergyPath/grid_func.py:70-90 | a resolved box has one range per bound, each within its axis |
| GridFunc.ResolveAllOk | MinEnergyPath/grid_func.py:70-90 | the second loop succeeds exactly when every axis resolves |
| GridFunc.ResolveAllValue | MinEnergyPath/grid_func.py:70-90 | on success, axis a of the box is that axis's own resolution |
| GridFunc.ResolveAllErr | MinEnergyPath/grid_func.py:70-90 | on failure, the error is that of the first axis that fails |
| GridFunc.ResolveAllSnoc | MinEnergyPath/grid_func.py:70-90 | one more axis appends its range, or the first error stays |
| GridFunc.ResolveBounds | MinEnergyPath/grid_func.py:70-90 | the loop appending to `bounds_idx` computes ResolveAll |
| GridFunc.Boxes | MinEnergyPath/grid_func.py:53-90 | the searched box has one range per axis, each within the shape |
| GridFunc.GMinimizeTooMany | MinEnergyPath/grid_func.py:57-58 | more arguments than axes raises RuntimeError('more arguments than dimensionality') |
| GridFunc.GMinimizeBadLength | MinEnergyPath/grid_func.py:66-67 | a tuple bound of a length other than 1 or 2 raises RuntimeError('encountered invalid bound'), unless an earlier argument raised first |
| GridFunc.GMinimizeScalarPromotion | MinEnergyPath/grid_func.py:62-63 | a scalar bound behaves exactly as the one-element tuple holding it |
| GridFunc.GMinimizeFindsBoxMin | MinEnergyPath/grid_func.py:53-93 | a result of g_minimize is a valid node of the resolved box with the least potential in the box |
| GridFunc.GMinimize | MinEnergyPath/grid_func.py:53-93 | the method computes GMinimizeSpec: too many arguments, the checked bounds, the resolved box and its arg-min, with the first error the code raises |
| FloodfillGridFunc.Minimize | floodfill/gridFunc.py:16-20 | IndexError when idx(coords_idx) is outside [0, nnodes), where numpy would wrap a negative index; otherwise coords_idx of the descent, an in-bounds local minimum, and an in-bounds local minimum is returned unchanged |
| FloodfillGridFunc.CheckArgAsWritten | floodfill/gridFunc.py:65-76 | the checks in source order: None and `(None,)` skip, a scalar raises the interpreter's TypeError at `bound[0]`, an empty tuple IndexError, a bad length RuntimeError; an accepted bound has one or two items |
| FloodfillGridFunc.ScalarRejectedAsWritten | floodfill/gridFunc.py:68-71 | as written, g_minimize(x) raises TypeError for every scalar x |
| FloodfillGridFunc.CheckArg | floodfill/gridFunc.py:65-76 | the checks with the scalar promotion reachable; an accepted bound has one or two items |
| FloodfillGridFunc.GMinimizeScalarPromotion | floodfill/gridFunc.py:70-71 | with the promotion reachable, a scalar bound behaves as the one-element tuple holding it |
| FloodfillGridFunc.GMinimizeNoneItemIsUnbounded | floodfill/gridFunc.py:68-69 | a bound `(None,)` leaves its axis unbounded, exactly as None does |
| FloodfillGridFunc.FirstBadArg | floodfill/gridFunc.py:65-76 | the first argument that fails its checks decides the error g_minimize raises |
| FloodfillGridFunc.GMinimizeBadLength | floodfill/gridFunc.py:68-75 | an empty tuple raises IndexError and a tuple of three or more items raises RuntimeError('encountered invalid bound'), unless an earlier argument raised first |
| FloodfillGridFunc.CollectBounds | floodfill/gridFunc.py:60-76 | with the correction of Findings row 1: the first loop yields the checked bounds padded with None to dim, or the first error |
| FloodfillGridFunc.GMinimize | floodfill/gridFunc.py:59-102 | with the correction of Findings row 1: the method computes GMinimizeSpec with this variant's checks, the scalar promotion reachable |
| Ranking.BeforeTotal | MinEnergyPath/flooder.py:18 | of two distinct nodes exactly one sorts first |
| Ranking.BeforeTransitive | MinEnergyPath/flooder.py:18 | the sort order is transitive |
| Ranking.BeforeIrreflexive | MinEnergyPath/flooder.py:18 | no node sorts before itself |
| Ranking.BeforeSortLe | MinEnergyPath/flooder.py:18 | sorting earlier means a potential no larger, NaN last |
| Ranking.InsertSorted | MinEnergyPath/flooder.py:18 | inserting a new index into a sorted list keeps it sorted |
| Ranking.SortPrefix | MinEnergyPath/flooder.py:18 | the indices below k, each once, in sort order |
| Ranking.ArgSort | MinEnergyPath/flooder.py:18 | `sidx` lists every node exactly once, strictly in sort order |
| Ranking.SortedUnique | MinEnergyPath/flooder.py:18 | two sorted lists of the same indices are equal |
| Ranking.ArgSortUnique | MinEnergyPath/flooder.py:18 | any sorted permutation is ArgSort, so the ranks are determined |
| Ranking.ArgSortNonDecreasing | MinEnergyPath/flooder.py:18 | potentials along `sidx` never decrease (NaN last) |
| Ranking.Invert | MinEnergyPath/flooder.py:19 | `inv_sidx[i]` is a position of `sidx` holding i |
| Ranking.InvertInverse | MinEnergyPath/flooder.py:18-19 | `inv_sidx[sidx[k]] == k` |
| Ranking.InvertIsArgSort | MinEnergyPath/flooder.py:19 | `inv_sidx` is a permutation that reads `sidx` in ascending order, as `argsort(sidx)` does |
| Ranking.RankOrder | MinEnergyPath/flooder.py:18-19 | a lower rank means earlier in the sort order, and conversely |
| Flooding.RanksOf | MinEnergyPath/flooder.py:18-19 | the two tables are inverse permutations of the nodes |
| Flooding.Flooder.constructor | MinEnergyPath/flooder.py:14-22 | stores the potential, the rank tables argsort(pot) and its inverse, zeroed colour and parent arrays of nnodes entries, an empty heap |
| Flooding.ValidNeighborAdjacent | MinEnergyPath/grid_func.py:159-162 | a valid neighbour is an in-range, adjacent node with a valid potential |
| Flooding.AdjacentSymmetric | floodfill/grid.py:118-125 | adjacency of flat indices is symmetric |
| Flooding.NeighborTableOk | MinEnergyPath/flooder.py:64 | the neighbours each expansion scans are in-range nodes, and the table has one entry per node; that they are also valid and adjacent is Flooding.ValidNeighborAdjacent |
| Flooding.InitState | MinEnergyPath/flooder.py:48-55 | the state `_flood_init` leaves satisfies the flood invariant, and both seeds' ranks are on the heap, so the closure invariant holds |
| Flooding.Flooder.ClearArrays | MinEnergyPath/flooder.py:50-51 | every colour becomes 0 and every parent -1 |
| Flooding.Flooder.FloodInit | MinEnergyPath/flooder.py:48-55 | every colour is 0 except color[idx1] = 1 and color[idx2] = 2 (idx2 last), every parent is -1, the heap holds exactly the two seeds' ranks, and the flood invariant and the closure invariant hold |
| Flooding.Flooder.PopMin | MinEnergyPath/flooder.py:62 | `heappop` removes one occurrence of the least rank on the heap; its node is coloured |
| Flooding.MinPos | MinEnergyPath/flooder.py:62 | a position of the least heap entry |
| Flooding.Pop | MinEnergyPath/flooder.py:62 | removing any heap entry keeps the invariant, and the popped node is coloured |
| Flooding.ClaimForest | MinEnergyPath/flooder.py:68-71 | claiming an uncoloured neighbour keeps the forest: colours 0..2, each parent a same-coloured node listing its child as a neighbour, roots exactly the seeds |
| Flooding.ClaimHeap | MinEnergyPath/flooder.py:68-71 | the pushed rank belongs to a now-coloured, claimed node |
| Flooding.ClaimPushed | MinEnergyPath/flooder.py:68-71 | each claimed node is pushed exactly once, and the claimed nodes are exactly those with a parent |
| Flooding.ClaimDescends | MinEnergyPath/flooder.py:70 | the new parent pointer keeps the parent chains finite |
| Flooding.Claim | MinEnergyPath/flooder.py:64-71 | one claim keeps the whole flood invariant and uncolours exactly one node fewer |
| Flooding.Flooder.ClaimNode | MinEnergyPath/flooder.py:68-71 | sets the node's colour to the current colour and its parent to the current node, pushes its rank, changes nothing else, and keeps the invariant |
| Flooding.Flooder.ScanOne | MinEnergyPath/flooder.py:64-73 | one neighbour handled: of the same colour, nothing changes; uncoloured, it takes the current colour and the current node as parent, its rank is pushed, and nothing else changes; of the other colour, its rank is recorded and nothing else changes |
| Flooding.ScanEffectStep | MinEnergyPath/flooder.py:64-73 | one more handled neighbour extends the effect of the scan: claimed neighbours carry the current colour and parent, every other node keeps its colour and parent, and the ranks of newly coloured nodes are on the heap |
| Flooding.ScanStep | MinEnergyPath/flooder.py:64-73 | after the step the scanned prefix is one longer: all coloured, other-coloured ones recorded |
| Flooding.OthersStep | MinEnergyPath/flooder.py:72-73 | every recorded rank is that of a scanned neighbour of the other colour |
| Flooding.GrowsTrans | MinEnergyPath/flooder.py:64-71 | colours only go from 0 to a seed colour, across any number of steps |
| Flooding.KeepsTrans | MinEnergyPath/flooder.py:64-71 | parents once set stay set, across any number of steps |
| Flooding.Flooder.Expand | MinEnergyPath/flooder.py:64-73 | the scan of the current node's neighbours: every neighbour uncoloured before now has the current colour and the current node as parent, every node outside the list keeps its colour and parent, the old heap is a prefix of the new one and holds the rank of every newly coloured node; all neighbours end coloured and exactly the ranks of those of the other colour are recorded |
| Flooding.Flooder.ExpandMin | MinEnergyPath/flooder.py:60-73 | one iteration pops a least rank and expands its node with the effect Expand states against the heap without that rank, keeps the invariant, uncolours a node or shrinks the heap, and when nothing was recorded keeps the closure invariant: every coloured node whose rank is off the heap has all its valid neighbours in its own colour |
| Flooding.CloseAfterExpand | MinEnergyPath/flooder.py:60-73 | after the least node is popped and fully expanded without meeting the other colour, every coloured node off the heap again has all its valid neighbours in its own colour |
| Flooding.Flooder.Spread | MinEnergyPath/flooder.py:58-73 | the while loop ends with an empty heap, nothing recorded and every coloured node's valid neighbours in its own colour, or with a fully scanned expansion that met the other colour |
| Flooding.MinOf | MinEnergyPath/flooder.py:74 | `min` of the recorded ranks |
| Flooding.ChooseMeeting | MinEnergyPath/flooder.py:74-81 | the least recorded rank names a neighbour of the other colour whose rank is least among all such neighbours |
| Flooding.Flooder.FloodFill | MinEnergyPath/flooder.py:57-81 | raises EmptyHeapError only with an empty heap and both fronts closed, so that for distinct seeds no valid walk joins them; otherwise the seeds are distinct and it returns (colour-1 node, colour-2 node) where one expanded fully and the other is its least-rank neighbour of the other colour |
| Flooding.Chain | MinEnergyPath/flooder.py:86-88 | a parent chain starts at its node and stays in range |
| Flooding.ChainColour | MinEnergyPath/flooder.py:83-95 | a chain stays in its node's colour |
| Flooding.ChainLinks | MinEnergyPath/flooder.py:83-95 | each chain element's parent is the next one, which lists it as a neighbour |
| Flooding.ChainRoot | MinEnergyPath/flooder.py:83-95 | a chain ends at a node without parent: the seed of its colour |
| Flooding.ChainSpec | MinEnergyPath/flooder.py:83-95 | the three facts above together |
| Flooding.ChainStep | MinEnergyPath/flooder.py:87-88 | one more `append(p_idx[path_idx[-1]])` extends the walked prefix of the chain |
| Flooding.ChainEnd | MinEnergyPath/flooder.py:87-88 | when the loop stops, the walked list is the whole chain |
| Flooding.Reverse | MinEnergyPath/flooder.py:89 | `reverse` lists the same elements back to front |
| Flooding.JoinSteps | MinEnergyPath/flooder.py:89-93 | a reversed chain followed by a chain is linked at every step when the two chains start at linked nodes, and every inner node is listed as a valid neighbour by its parent |
| Flooding.JoinEnds | MinEnergyPath/flooder.py:89-93 | the joined list starts at the first chain's root, ends at the second's, and meets where the two start |
| Flooding.RouteSpec | MinEnergyPath/flooder.py:83-95 | the route starts at seed 1, runs colour 1 up to meeting node A, then B and colour 2, ends at seed 2, every step is a link, and every inner node was claimed by its parent |
| Flooding.Flooder.FollowPath | MinEnergyPath/flooder.py:83-95 | the two append loops and the reverse compute the joined parent chains |
| Flooding.Flooder.TraceRoute | MinEnergyPath/flooder.py:83-95 | after a flood, the route runs from seed 1 to seed 2 with every step a link and every inner node claimed, so it is a valid walk |
| Flooding.Flooder.FindRoute | MinEnergyPath/flooder.py:27-29 | EmptyHeapError only when idx1 == idx2 or no valid walk (grid-adjacent steps, each touching a valid node, inner nodes valid) leads from idx1 to idx2; otherwise idx1 != idx2 and a route of at least two linked nodes from idx1 to idx2 that is such a walk |
| Flooding.LinkedIff | MinEnergyPath/grid_func.py:159-162 | two nodes are linked in the valid-neighbour table exactly when they are adjacent and one of them is valid |
| Flooding.WalkColour | MinEnergyPath/flooder.py:58-73 | with both fronts closed, a valid walk from a coloured node keeps its colour up to its last inner node |
| Flooding.Separated | MinEnergyPath/flooder.py:58-73 | with both fronts closed, a valid walk from the colour-1 seed does not end at the colour-2 seed |
| Flooding.Disconnected | MinEnergyPath/flooder.py:58-73 | with both fronts closed, no valid walk joins the two seeds |
| Flooding.RouteIsValidWalk | MinEnergyPath/flooder.py:83-95 | a route of links whose inner nodes were claimed is a valid walk |
| Flooding.RouteWalk | MinEnergyPath/flooder.py:83-95 | the route traced between linked meeting nodes of colours 1 and 2 is a valid walk |
| Flooding.LinkedAdjacent | MinEnergyPath/flooder.py:64 | a link between valid nodes is a grid adjacency |
| Flooding.NanNeighborSpec | MinEnergyPath/flooder.py:36-40 | a node has a NaN neighbour exactly when some node touching it holds NaN |
| Flooding.HasNanNeighborAsWritten | MinEnergyPath/flooder.py:36-40 | the scan over the filtered `neighbors_idx` is set exactly when a filtered neighbour is NaN, so it is never set |
| Flooding.HasNanNeighbor | MinEnergyPath/flooder.py:36-40 | the scan over the unfiltered grid neighbours is set exactly when a neighbour holds NaN |
| Flooding.Records | MinEnergyPath/flooder.py:31-46 | with the correction of Findings row 2: one record per path index, in order |
| Flooding.Record | MinEnergyPath/flooder.py:33-44 | with the correction of Findings row 2: a point with exactly the four known attributes, whose coords_idx maps back to the node, whose pot is the node's potential and whose has_nan_neighbor is the NaN-neighbour flag |
| Flooding.BuildPath | MinEnergyPath/flooder.py:31-46 | with the correction of Findings row 2: a new Path whose points are the records of the route, in order: coords_idx, coords, pot and has_nan_neighbor of each index |
| Flooding.Flooder.Flood | MinEnergyPath/flooder.py:24-46 | with the correction of Findings row 2: IndexError when a seed's flat index lies outside the arrays; EmptyHeapError only when the seeds share a node or no valid walk joins them; otherwise distinct seed nodes and a new Path of one record per node of a valid walk of grid-adjacent nodes from p1's node to p2's node |
| Paths.PotValue | MinEnergyPath/flooder.py:35 | a stored potential is NaN exactly when the node's potential is NaN, otherwise the number |
| Paths.NewPoint | MinEnergyPath/path.py:12-14 | the point's attributes are the defaults overridden by the keyword arguments |
| Paths.NewPointDefaults | MinEnergyPath/path.py:7-14 | every known attribute is set; one not supplied is NaN, or False for has_nan_neighbor |
| Paths.NormIndex | MinEnergyPath/path.py:24-31 | a list index is valid exactly when -n <= index < n, and negative ones count from the end |
| Paths.InsertPos | MinEnergyPath/path.py:36-37 | `list.insert` clamps its position into 0..n after counting negatives from the end |
| Paths.SeqInsert | MinEnergyPath/path.py:36-37 | one longer, v at k, earlier elements kept, later ones shifted right |
| Paths.SeqRemove | MinEnergyPath/path.py:30-31 | one shorter, earlier elements kept, later ones shifted left |
| Paths.RemoveInsert | MinEnergyPath/path.py:30-37 | deleting what was just inserted gives the list back |
| Paths.InsertRemove | MinEnergyPath/path.py:30-37 | re-inserting what was just deleted gives the list back |
| Paths.Path.constructor | MinEnergyPath/path.py:21-22 | a new path is empty, its length 0 |
| Paths.Path.Get | MinEnergyPath/path.py:24-25 | the element at the normalised index, or IndexError |
| Paths.Path.Set | MinEnergyPath/path.py:27-28 | replaces exactly one element and keeps the length; IndexError changes nothing |
| Paths.Path.Delete | MinEnergyPath/path.py:30-31 | removes exactly one element, the length one less; IndexError changes nothing |
| Paths.Path.Insert | MinEnergyPath/path.py:36-37 | places the point at the clamped position, the length one more, nothing else changes |
| Paths.Path.Len | MinEnergyPath/path.py:33-34 | `__len__` is the number of points |
| Paths.Path.Append | MinEnergyPath/flooder.py:41-44 | `append` (insert at the end) adds the point last |
| Paths.Column | MinEnergyPath/path.py:39-44 | one value per point, in path order: the attribute, or None when unset |
| Paths.GetAttr | MinEnergyPath/path.py:43 | `getattr(point, name, None)`: the attribute when the point has it, None otherwise |
| Paths.ColumnOfBuiltPoints | MinEnergyPath/path.py:39-44 | on points built by Point, a known attribute's column is the attribute itself |
| Paths.Path.Attribute | MinEnergyPath/path.py:39-46 | a known name gives its column, in path order, with one entry per point; any other name raises AttributeError |

## Left out

- `floodfill/vreco.py`, both `input_parser.py`, `MinEnergyPath/main.py`, `mepfinder/cli_facade.py` and `floodfill/plot.py` are not part of this model. They are file parsing, numerics, command-line front ends and plotting.
- `from_file`, `from_vreco`, `from_grid_vecs`, `save`, `_save`, `smooth` and `_copy` of the potential wrappers are not modelled. They are file I/O, text formatting and a scipy Gaussian filter.
- `Grid.from_size`, `Grid.from_range` and `Grid.refine` are not modelled. They are float step arithmetic, and `refine` calls `Grid` with a signature that does not exist.
- Floating point: grid values and potentials are exact reals, and NaN is an explicit case. Rounding in `np.linspace` and in comparisons is not modelled.
- Grid.NewGrid: requires at least one axis and at least one node per axis. The source fails later, in `coords_idx` or `neighbors_idx`, on such grids.
- Grid.Coords: requires in-range indices. For an index outside its axis, numpy raises IndexError, or wraps when the index is negative.
- Grid.Idx: the contract bounds the flat index only for in-bounds tuples. For other tuples the source returns the raw dot product with no check, and so does the model, but nothing is stated about it.
- Flooding.Flooder.Flood: a negative flat index is reported as IndexError. numpy would wrap it around to the end of the colour array.
- Flooding.Flooder.Flood: keyword arguments are not modelled, and neither is a partial change of state before an exception.
- Common.Error: a TypeError the interpreter raises (subscripting a number, `None - gv`) carries no message, written `TypeError(None)`; only the code's own `TypeError('encountered not allowed argument type')` carries its text.
- Ranking.ArgSort: ties in potential are broken by flat index. numpy's default argsort (quicksort) gives no such guarantee.
- Flooding.Flooder.PopMin: the heap is a sequence from which one least entry is removed. heapq's array layout is not modelled. Removing any least entry gives the same rank, so the flood does the same thing.
- Flooding.Flooder.FloodFill: the contract states what the final expansion found. It does not state that earlier expansions met nothing.
- FloodfillGridFunc.Minimize: a flat index in [-nnodes, -1] raises IndexError in the model. numpy reads the potential from the end, the descent then runs from the negative index and a tuple is returned.
- FloodfillGridFunc.CollectBounds: models the check with the correction of Findings row 1, so a scalar is promoted; as written the source raises TypeError, which FloodfillGridFunc.ScalarRejectedAsWritten states.
- FloodfillGridFunc.GMinimize: computes the corrected checks of Findings row 1, not the TypeError the source raises for a scalar argument.
- Flooding.Record: has_nan_neighbor is the corrected flag of Findings row 2; as written it is always False, which Flooding.HasNanNeighborAsWritten states.
- Flooding.Records: built from Flooding.Record, so it carries the correction of Findings row 2.
- Flooding.BuildPath: built from Flooding.Record, so it carries the correction of Findings row 2.
- Flooding.Flooder.Flood: returns the records with the correction of Findings row 2.
- Flooding.Flooder.Flood: the contract states that the path runs from seed to seed along a valid walk. It states no minimax (bottleneck) optimality, because the code as written does not guarantee one: on the 3x3 grid with flat potentials (0, 9, 0, 1, 9, 1, 1, 1, 1) and seeds 0 and 2 it returns a path through potential 9 where the walk 0, 3, 7, 5, 2 stays at potential 1 (see "Where the code and its design description differ"). A corrected minimax flood is not part of this model.
- Flooding.Flooder: the neighbour table `nbrs`, the chain lengths `depth`, the seeds and the `pushed` list are ghost state. They are proof devices with no counterpart in the source.
- GridFunc.SearchSorted: on an unsorted axis the model gives what numpy's bisection gives, which need not be the first value not below x; only sorted axes have a split property, so a descending axis selects a box by that bisection (GridFunc.SearchSortedDescending).
- Paths.Path: slice indices, `Path.points` (an `hstack` of the columns), `__repr__`, and values that are not `Point` objects are not modelled.

## Findings

| source | as written | input that shows it | evidently intended | confidence | as-written member | corrected member |
|---|---|---|---|---|---|---|
| floodfill/gridFunc.py:68-71 | `bound[0]` is read before a scalar is promoted to a tuple, so the promotion on lines 70-71 is unreachable | `g_minimize(0.5)` on any grid raises TypeError (a float is not subscriptable) | a scalar bound is the one-element tuple holding it, as in MinEnergyPath/grid_func.py:62-63 | not executed | FloodfillGridFunc.ScalarRejectedAsWritten | FloodfillGridFunc.GMinimizeScalarPromotion |
| MinEnergyPath/flooder.py:36-40 | the NaN-neighbour scan walks `self.gf.neighbors_idx(idx)`, which (MinEnergyPath/grid_func.py:159-162) has already dropped every NaN neighbour | a 2x2 grid with potentials (0, 0, 0, NaN), flooding from (0, 0) to (0, 1): node (0, 0) touches the NaN node (1, 1), yet its record says has_nan_neighbor False | the flag is set when any grid neighbour of the node is NaN | not executed | Flooding.HasNanNeighborAsWritten | Flooding.HasNanNeighbor |
