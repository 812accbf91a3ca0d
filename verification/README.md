# Rising tides, modelled in Dafny

This is a model of the terrain queries in `RisingTides`. A terrain is a rectangular grid of heights
with a fixed list of water sources. At a given water level:

- The water spreads from every source into the four orthogonal neighbours of each flooded cell that
  lie no higher than the water (`floodedRegionsIn`). A source is flooded whatever its own height.
- The other queries are built on the resulting mask:
  - whether one cell is under water (`isFlooded`);
  - how far a cell stands above or below the water (`heightAboveWater`);
  - how many cells stay visible (`totalVisibleLand`);
  - how much land is lost between two levels (`landLost`);
  - the lowest and highest points of the terrain (`elevationExtrema`);
  - how many islands the dry land forms (`numOfIslands`).
- Islands are the 8-connected groups of dry cells, so cells that touch only at a corner are one
  island. The source counts them with a union-find.

Modules:

- `Grid`:
  - `GridLocation`, a value datatype;
  - the orthogonal and 3x3 neighbourhoods;
  - `Cells(rows, cols)` and its size.
- `Connectivity`:
  - walks over an undirected set of contacts between cells;
  - `Bonds(land)`, the pairs of land cells in one 3x3 block;
  - `Island` and `Islands`, the connected groups of land;
  - the counting lemma that ties distinct union-find roots to the number of islands.
- `DisjointSets`: the class `UnionFind`. Every cell stores its root in an `array2`; `Find` and `Union`
  act on it in place.
- `IslandCount`:
  - the union loop of `numOfIslands` (`JoinLand`, `JoinAround`, `Join`), proved to make the
    union-find's sets exactly the connected groups of dry land;
  - the root-counting loop (`CountRoots`), proved to count the distinct roots of the dry cells.
- `Tides`: the class `RisingTides`, which holds the terrain and the sources as constants.
  - The flood specification. `FloodSet(h)` is the set of cells reachable from a source by a path of
    orthogonal steps onto cells no higher than `h`. Lemmas show it is the least closed set that holds
    the sources.
  - The worklist flood fill over an `array2<bool>` mask, proved to produce exactly `FloodSet(h)`.
  - The queries built on it.

## Model

| member | source | states |
|---|---|---|
| Tides.RisingTides.constructor | RisingTides/src/tides/RisingTides.java:29-32 | the terrain and the sources are the ones given; the grid has at least one row, its rows are equally long and every source is on it |
| Tides.RisingTides.FloodedRegionsIn | RisingTides/src/tides/RisingTides.java:71-114 | the mask is newly allocated, has the terrain's dimensions and is true at a cell exactly when the cell is in `FloodSet(h)`; every source is true; the worklist loop runs at most `|sources| + rows*cols` times (it terminates) |
| Tides.RisingTides.MarkSources | RisingTides/src/tides/RisingTides.java:79-81 | marking the sources in the all-dry mask marks exactly the sources and establishes the worklist invariant with the sources as the queue |
| Tides.RisingTides.Visit | RisingTides/src/tides/RisingTides.java:83-112 | taking the head off the worklist and spilling into its neighbours keeps the worklist invariant: the mask mirrors the marked cells, which hold the sources and only reachable cells, and every marked cell no longer queued has no dry neighbour water can enter; the queue loses its head and keeps the rest in order, and every cell appended at its end is newly marked; the newly marked cells are exactly the head's neighbours water can enter |
| Tides.RisingTides.Spill | RisingTides/src/tides/RisingTides.java:88-111 | one neighbour check: an in-bounds, unmarked neighbour no higher than the water becomes marked and is appended to the queue, and otherwise queue and marked cells stay as they were; the count of marked plus queued cells stays balanced, and the checked neighbour is marked if water can enter it |
| Tides.RisingTides.FloodDone | RisingTides/src/tides/RisingTides.java:83-113 | when the worklist is empty the mask is true exactly at the cells of `FloodSet(h)`, and at every source |
| Tides.RisingTides.SourcesFlooded | RisingTides/src/tides/RisingTides.java:79-81 | every source is flooded at every level, whatever its height |
| Tides.RisingTides.FloodSetClosed | RisingTides/src/tides/RisingTides.java:88-111 | water cannot run from a flooded cell into an orthogonal neighbour no higher than the water that is not flooded |
| Tides.RisingTides.FloodSetLeast | RisingTides/src/tides/RisingTides.java:59-71 | the flooded cells lie inside every set that holds the sources and is closed under spreading |
| Tides.RisingTides.FloodFixpoint | RisingTides/src/tides/RisingTides.java:83-112 | a set of reachable cells that holds the sources and is closed under spreading is exactly the flooded set |
| Tides.RisingTides.FloodMonotone | RisingTides/src/tides/RisingTides.java:59-71 | raising the water never uncovers a cell |
| Tides.RisingTides.FloodedIsLow | RisingTides/src/tides/RisingTides.java:88-111 | a flooded cell is a source or lies no higher than the water |
| Tides.RisingTides.FloodedIsFed | RisingTides/src/tides/RisingTides.java:88-111 | a flooded cell that is not a source has a flooded orthogonal neighbour whose water runs into it |
| Tides.RisingTides.IsFlooded | RisingTides/src/tides/RisingTides.java:123-128 | the answer is true exactly when the cell is in `FloodSet(h)`; sources are always flooded; a flooded non-source cell lies no higher than the water |
| Tides.RisingTides.HeightAboveWater | RisingTides/src/tides/RisingTides.java:142-150 | the result is positive exactly when the cell is above the water, negative exactly when it is below, and adding the water level gives the cell's height back |
| Tides.RisingTides.AboveWaterIsDry | RisingTides/src/tides/RisingTides.java:130-150 | a cell that is not a source and whose height above the water is positive is visible land |
| Tides.RisingTides.TotalVisibleLand | RisingTides/src/tides/RisingTides.java:158-170 | the count is the number of cells outside `FloodSet(h)`; with the flooded cells it makes up the whole grid |
| Tides.RisingTides.LandAndWater | RisingTides/src/tides/RisingTides.java:152-170 | the visible and the flooded cells add up to `rows*cols` |
| Tides.RisingTides.VisibleLandShrinks | RisingTides/src/tides/RisingTides.java:173-189 | raising the water never increases the visible land |
| Tides.RisingTides.LandLost | RisingTides/src/tides/RisingTides.java:184-189 | the result is the visible land at `height` minus the visible land at `newHeight`; it is non-negative when the water rises, non-positive when it falls, and zero when the level is unchanged |
| Tides.RisingTides.ElevationExtrema | RisingTides/src/tides/RisingTides.java:40-57 | the results bound every height from below and above, and each is the height of some cell |
| Tides.RisingTides.NumOfIslands | RisingTides/src/tides/RisingTides.java:191-239 | the count is the number of 8-connected groups of visible cells; it is at most the number of visible cells, and zero when nothing is visible |
| IslandCount.JoinLand | RisingTides/src/tides/RisingTides.java:214-229 | after the union loop two cells share a set exactly when they are connected through dry cells within one 3x3 block of each other |
| IslandCount.JoinAround | RisingTides/src/tides/RisingTides.java:217-227 | the dry cell (i, j) is joined with every dry cell of the 3x3 block around it, and the union-find still tracks the contacts joined so far; the contacts only grow, and every new one starts at (i, j) |
| IslandCount.Join | RisingTides/src/tides/RisingTides.java:222 | a union adds one contact, and the union-find's sets stay exactly the connected groups of the recorded contacts |
| IslandCount.CountRoots | RisingTides/src/tides/RisingTides.java:230-238 | the count is the number of distinct roots among the dry cells |
| DisjointSets.UnionFind.constructor | RisingTides/src/tides/RisingTides.java:214 | every cell of a `rows` x `cols` grid starts as the root of its own set |
| DisjointSets.UnionFind.Find | RisingTides/src/tides/RisingTides.java:232 | the result is the root of the cell's set, a cell of the grid that is its own root |
| DisjointSets.UnionFind.Union | RisingTides/src/tides/RisingTides.java:222 | the set of `q` is merged into the set of `p`: two cells share a set afterwards exactly when they did before, or one was with `p` and the other with `q` |
| Connectivity.AddEdge | RisingTides/src/tides/RisingTides.java:222 | after one more contact (p, q), two cells are connected exactly when they were before, or one reaches `p` and the other reaches `q` |
| Connectivity.LabelsCountIslands | RisingTides/src/tides/RisingTides.java:230-238 | a labelling that gives two land cells the same value exactly when they are connected takes as many distinct values as there are islands |
| Connectivity.IslandsNoMore | RisingTides/src/tides/RisingTides.java:191-206 | there are never more islands than land cells |
| Connectivity.SameIsland | RisingTides/src/tides/RisingTides.java:194-202 | two land cells are on the same island exactly when they are connected through touching land |
| Connectivity.IslandsPartition | RisingTides/src/tides/RisingTides.java:194-202 | every land cell is on its own island, and two islands are equal or disjoint |
| Connectivity.DiagonalOneIsland | RisingTides/src/tides/RisingTides.java:194-198 | two land cells that touch only at a corner are on one island |
| Grid.CellsCount | RisingTides/src/tides/RisingTides.java:72-74 | a `rows` x `cols` grid has exactly `rows*cols` cells |

## Left out

- Loading the terrain (the `Terrain` class and its file format) and the
  `Driver` text output are not part of this model. The constructor takes the height grid and the
  source list as values.
- `WeightedQuickUnionUF` is not part of this model. `DisjointSets.UnionFind` is a quick-find over
  an `array2` of root locations. It forms the same sets under `union`, which is all the island
  count relies on. It may pick different representatives for `find`, and the weighting and the
  path costs are not modelled.
- Heights are `real`, not IEEE doubles: there is no NaN, infinity or rounding. `heightAboveWater`
  is exact subtraction.
- Integer widths are not modelled. The `(int)` cast in `landLost` is a no-op on an `int` difference,
  and the counts are bounded by `rows*cols`.
- Tides.RisingTides.ElevationExtrema: returns the pair (lowest, highest) instead of a two-element
  array. It requires a non-empty first row, where the source would throw on `terrain[0][0]`.
- Tides.RisingTides.Valid: requires a rectangular grid with every source on it. The terrain is
  meant to be rectangular when it is built, but `RisingTides` itself does not check it, and a
  ragged grid is not modelled. On such a grid the source behaves as follows:
  - `floodedRegionsIn` sizes the mask and tests bounds by the first row's length
    (RisingTides.java:73, :88-111). So do `totalVisibleLand` (:163) and `numOfIslands`
    (:209, :220). The extra cells of a longer row are ignored, with no error.
  - `elevationExtrema` scans each row to its own length (:46).
  - A row shorter than the first throws only when the flood reads past its end (:89, :95, :101,
    :107).
  - An off-grid source throws when it is marked (:80). This is modelled as a precondition.
  - An empty source list is allowed, as in the source, and then nothing is flooded.
- Tides.RisingTides.FloodedRegionsIn: the worklist is a `seq` with the head removed, not an
  `ArrayList`. Its cost is not modelled, and the iteration bound is a ghost out-parameter.
- Tides.RisingTides.NumOfIslands: the `islands` list of roots is a local `seq` inside
  `IslandCount.CountRoots`. The `contains` lookup is a membership test.
