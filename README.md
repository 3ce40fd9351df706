# Mesh grid topology

This project models the integer topology of `MeshGrid` (`test-harness/fixtures/mesh_grid.rs`).
A closed triangle mesh is given as a flat triangle-index list. From it the grid builds:

- six compressed (CSR) adjacency relations: Cell->Cell, Cell->Edge, Edge->Cell, Edge->Vertex,
  Vertex->Cell and Vertex->Edge;
- the per-cell records with their three corner vertices;
- the discrete exterior derivatives `d0` (edges x vertices) and `d1` (cells x edges), as
  signed incidence triplets.

The triangle list is `tris: seq<nat>`, and the number of cells is `|tris| / 3`, as in the source.
Local edge `k` of cell `c` runs from `tris[3c+k]` to `tris[3c+(k+1)%3]`.

The source builds the edge numbering three times, once each inside the Cell->Edge, Edge->Cell
and Edge->Vertex builders. Each copy scans the local edges in order and hands the next id to a
canonical `(min, max)` pair the first time it sees that pair. All of them are related to one pure
function, `EdgeNumbering.ScanUpTo`, whose final value gives `EdgeIds` (pair -> id) and
`EdgeList` (id -> pair). The numbering loop of Cell->Edge and Edge->Vertex (`EdgeBuilders.NumberEdges`)
keeps its map and counter equal to `ScanUpTo` at the current position. Edge->Cell's own loop
keeps its map equal to `CellIncidence.SlotScan`, whose keys and ids agree with `ScanUpTo` at
every position (`CellIncidence.SlotScanEntries`). So the three relations agree on every id.
`EdgeNumbering.CellInRange` and `EdgeNumbering.CornerIndex` are index-arithmetic helpers
(`3c + k` lies in the list and belongs to cell `c`) and have no row below.

Modules follow the structure of the file:

- `Csr`: the container and its accessors.
- `EdgeNumbering`: the shared numbering.
- `CellIncidence`: the Edge->Cell slot rule and the Cell->Cell neighbour as pure functions,
  with the closed-manifold facts.
- `VertexIncidence`: what the two per-vertex relations hold.
- `EdgeBuilders`: the Cell->Edge, Edge->Cell and Edge->Vertex builders.
- `CellAdjacency`: Cell->Cell.
- `VertexCell`: the counting sort.
- `VertexEdge`: incidence collection, sort and concatenation.
- `TripletMatrix`: triplet matrices, their entries, row sums and product.
- `ExteriorDerivative`: `build_d0`, `build_d1` and the proof that `d1 d0 = 0`.
- `MeshGrid`: the cell records, the whole constructor, and the cross-relation facts.

The builders are imperative methods with loops and invariants, and each is proved against the
pure function that specifies it. Growable vectors and arrays written by index are `seq` values
that the loops reassign. A `HashMap` is a `map`, and its iteration order is an arbitrary choice
from the keys not yet visited.

The contracts are stated against a few reference definitions, which are plain functions
without rows of their own:

- `EdgeNumbering.ScanUpTo` is the numbering, and `EdgeIds`, `EdgeList` and `NumEdges` are read
  from its final value.
- `CellIncidence.SlotScan` and `CellIncidence.LastSlot` define the Edge->Cell slot rule.
- `CellIncidence.Neighbor` is the Cell->Cell value, and `CellIncidence.ClosedManifold` is the
  closed-manifold assumption.
- `VertexIncidence.CellsAt`, `CornersBelow`, `EdgesAt` and `EndsBelow` give the per-vertex rows
  and their offsets.
- `ExteriorDerivative.D1Ref` is an independent `d1`.
- `TripletMatrix.Entry`, `RowSum` and `Product` define matrix entries, row sums and the product.

## Model

| member | source | states |
|---|---|---|
| Csr.Len | test-harness/fixtures/mesh_grid.rs:116-118 | the number of rows is one less than the number of offsets, and 0 (saturating, no wrap-around) when there are no offsets |
| Csr.IsEmpty | test-harness/fixtures/mesh_grid.rs:121-123 | true exactly when there is at most one offset, i.e. no row |
| Csr.Get | test-harness/fixtures/mesh_grid.rs:135-139 | row `i` has `offsets[i+1]-offsets[i]` entries, and entry `j` is `indices[offsets[i]+j]`; slicing needs both offsets in range |
| Csr.Count | test-harness/fixtures/mesh_grid.rs:142-144 | needs only the two offsets, without underflow; whenever the row can be sliced, the degree equals the length of the row that `get` yields |
| Csr.ValidRowsInRange | test-harness/fixtures/mesh_grid.rs:135-139 | in well-formed CSR data every row below `len` can be sliced without a panic |
| Csr.RowsArePrefix | test-harness/fixtures/mesh_grid.rs:107-112 | the first `n` rows concatenated are the prefix of `indices` ending at `offsets[n]` |
| Csr.RowsCoverIndices | test-harness/fixtures/mesh_grid.rs:107-112 | the rows of a well-formed relation partition `indices`, in row order |
| EdgeNumbering.Canon | test-harness/fixtures/mesh_grid.rs:199 | the canonical pair holds the same two vertices, smaller first |
| EdgeNumbering.Dirs | test-harness/fixtures/mesh_grid.rs:188-198 | the scan visits exactly three local edges per cell |
| EdgeNumbering.DirOfCell | test-harness/fixtures/mesh_grid.rs:188-198 | the `(3c+k)`-th local edge of the scan is local edge `k` of cell `c`, i.e. `(v[k], v[(k+1)%3])` |
| EdgeNumbering.DirOfIndex | test-harness/fixtures/mesh_grid.rs:188-198 | conversely, scan position `j` is local edge `j%3` of cell `j/3` |
| EdgeNumbering.NumberingStep | test-harness/fixtures/mesh_grid.rs:201-205 | the map and counter of a builder that equal the scan before a step equal it after the step, in both branches |
| EdgeNumbering.WellNumberedStep | test-harness/fixtures/mesh_grid.rs:201-205 | giving a new canonical pair the next id keeps the map and the order list mutually inverse |
| EdgeNumbering.ScanWellNumbered | test-harness/fixtures/mesh_grid.rs:185-207 | at every point of the scan, the id map and the first-seen list are inverse bijections between the seen pairs and `0..count-1`, and every pair is canonical |
| EdgeNumbering.EdgeIdsCount | test-harness/fixtures/mesh_grid.rs:274 | the map holds exactly as many pairs as ids handed out (`edge_map.len()` is `E`) |
| EdgeNumbering.ScanCovers | test-harness/fixtures/mesh_grid.rs:221-225 | every local edge scanned so far has its canonical pair in the map, so the lookup `edge_map[&canonical]` never panics |
| EdgeNumbering.ScanKeysSeen | test-harness/fixtures/mesh_grid.rs:196-206 | every key of the map is the canonical pair of some local edge already scanned |
| EdgeNumbering.ScanExtends | test-harness/fixtures/mesh_grid.rs:201-205 | scanning further only adds pairs: an id once given never changes, and the first-seen list only grows |
| EdgeNumbering.FirstSightId | test-harness/fixtures/mesh_grid.rs:201-205 | the pair first seen at scan position `i` ends with the id equal to the number of pairs seen before `i` |
| EdgeNumbering.FirstSeenOrder | test-harness/fixtures/mesh_grid.rs:201-205 | of two first sightings, the earlier one gets the smaller id |
| EdgeNumbering.SameIdIffSamePair | test-harness/fixtures/mesh_grid.rs:221-226 | two local edges get the same id exactly when their canonical pairs are equal |
| EdgeNumbering.IdsAreDense | test-harness/fixtures/mesh_grid.rs:201-205 | the ids handed out are exactly `0..E-1` |
| EdgeNumbering.LocalEdgeId | test-harness/fixtures/mesh_grid.rs:221-226 | every local edge has an id below `E`, and entry `id` of the edge list is its canonical pair |
| EdgeNumbering.ListedEdgesFromTris | test-harness/fixtures/mesh_grid.rs:197-199 | when every corner is below a bound, so are both endpoints of every numbered edge |
| CellIncidence.Record | test-harness/fixtures/mesh_grid.rs:268-269 | a traversal overwrites slot 0 when the edge runs lower->higher and slot 1 otherwise, keeping the id and the other slot |
| CellIncidence.SlotScanKeys | test-harness/fixtures/mesh_grid.rs:262-266 | the slot map of the Edge->Cell pass has exactly the keys of the shared numbering |
| CellIncidence.SlotScanStep | test-harness/fixtures/mesh_grid.rs:256-271 | one step of the Edge->Cell pass: insert `(next id, [0,0])` when the pair is new, then record the cell in the slot of its direction |
| CellIncidence.SlotScanEntry | test-harness/fixtures/mesh_grid.rs:262-270 | each entry of the slot map holds the shared id and the last cell traversing the pair in each direction |
| CellIncidence.SlotScanEntries | test-harness/fixtures/mesh_grid.rs:262-270 | the same fact for every entry at once |
| CellIncidence.SlotIsLast | test-harness/fixtures/mesh_grid.rs:268-269 | a slot holds the cell of the last local edge that traverses the pair in that slot's direction |
| CellIncidence.SlotUnwritten | test-harness/fixtures/mesh_grid.rs:265 | a slot that no traversal writes keeps its initial 0 |
| CellIncidence.SlotIsCell | test-harness/fixtures/mesh_grid.rs:269 | every slot holds a valid cell id |
| CellIncidence.ReverseInOtherCell | test-harness/fixtures/mesh_grid.rs:256-260 | on a closed manifold a local edge and its reverse lie in different cells |
| CellIncidence.EdgeSlots | test-harness/fixtures/mesh_grid.rs:256-270 | on a closed manifold the two slots of an edge hold its two cells, each in the slot of its own direction |
| CellIncidence.NeighborAcross | test-harness/fixtures/mesh_grid.rs:156-167 | on a closed manifold the neighbour across local edge `k` is a valid cell other than `c`; it holds the reverse edge, and across that edge its neighbour is `c` |
| CellIncidence.NeighborSymmetric | test-harness/fixtures/mesh_grid.rs:156-167 | on a closed manifold `b` is a neighbour of `a` exactly when `a` is a neighbour of `b` |
| EdgeBuilders.NumberCellEdges | test-harness/fixtures/mesh_grid.rs:189-206 | one cell of Cell->Edge's numbering loop takes the map and counter from the scan at `3c` to the scan at `3c+3` |
| EdgeBuilders.NumberEdges | test-harness/fixtures/mesh_grid.rs:185-207 | Cell->Edge's numbering loop ends with exactly `EdgeIds`, holding `E` pairs |
| EdgeBuilders.BuildCellEdge | test-harness/fixtures/mesh_grid.rs:180-238 | Cell->Edge is well formed with one row per cell, `offsets[c] = 3c`, and entry `3c+k` is the shared id of local edge `k` of `c` |
| EdgeBuilders.RecordLocalEdge | test-harness/fixtures/mesh_grid.rs:257-270 | one local edge of Edge->Cell's pass takes the slot map from the slot scan at `j` to the slot scan at `j+1` |
| EdgeBuilders.RecordCellEdges | test-harness/fixtures/mesh_grid.rs:248-271 | one cell of Edge->Cell's pass takes the slot map over that cell's three local edges |
| EdgeBuilders.NumberEdgesWithSlots | test-harness/fixtures/mesh_grid.rs:245-272 | Edge->Cell's own copy of the numbering ends with the keys and ids of `EdgeIds`, and each entry holds the slot rule's two cells |
| EdgeBuilders.PairOffsets | test-harness/fixtures/mesh_grid.rs:285-287 | the offsets are `0, 2, ..., 2n`, so every row has two entries |
| EdgeBuilders.WriteRow | test-harness/fixtures/mesh_grid.rs:280-282 | writing row `e` sets entries `2e` and `2e+1` and leaves every other entry |
| EdgeBuilders.WrittenStep | test-harness/fixtures/mesh_grid.rs:279-283 | visiting one map entry writes its own row and leaves every other row, whatever the visiting order |
| EdgeBuilders.ScatterSlots | test-harness/fixtures/mesh_grid.rs:274-283 | after the hash-order write pass, row `e` holds the two slots of the pair numbered `e` |
| EdgeBuilders.ScatterEndpoints | test-harness/fixtures/mesh_grid.rs:326-335 | after the hash-order write pass, row `e` holds the lower and then the higher vertex of the pair numbered `e` |
| EdgeBuilders.BuildEdgeCell | test-harness/fixtures/mesh_grid.rs:240-295 | Edge->Cell is well formed with `E` rows and `offsets[e] = 2e`; row `e` holds the last lower->higher cell, then the last higher->lower cell, of edge `e` |
| EdgeBuilders.BuildEdgeVertex | test-harness/fixtures/mesh_grid.rs:297-347 | Edge->Vertex is well formed with `E` rows and `offsets[e] = 2e`; row `e` is `(min, max)` of the pair that Cell->Edge numbers `e` |
| CellAdjacency.OtherCell | test-harness/fixtures/mesh_grid.rs:160-165 | the neighbour is always one of the edge's two cells; when the cell itself is one of two distinct cells, the neighbour is the other one (never the cell, and together they are the edge's two cells) |
| CellAdjacency.NeighborAt | test-harness/fixtures/mesh_grid.rs:159-166 | the value pushed for local edge `k` of `c`, read through Cell->Edge and Edge->Cell, is `Neighbor(c, k)` |
| CellAdjacency.CellRow | test-harness/fixtures/mesh_grid.rs:159-167 | a cell's row has three entries, entry `k` the neighbour across local edge `k` |
| CellAdjacency.NeighborsPlacedStep | test-harness/fixtures/mesh_grid.rs:156-168 | appending cell `c`'s three neighbours extends the rows of cells `0..c-1` |
| CellAdjacency.BuildCell | test-harness/fixtures/mesh_grid.rs:147-178 | Cell->Cell is well formed with one row per cell and `offsets[c] = 3c`, and entry `3c+k` is `Neighbor(c, k)` |
| VertexIncidence.CellsAtMembers | test-harness/fixtures/mesh_grid.rs:375-382 | a cell is listed for `v` after `n` corners exactly when one of those corners is `v` and belongs to the cell |
| VertexIncidence.CellsAtIffCorner | test-harness/fixtures/mesh_grid.rs:375-382 | cell `c` is in row `v` exactly when `c` is a cell and `v` is one of its corners |
| VertexIncidence.CellsAtAscending | test-harness/fixtures/mesh_grid.rs:375-382 | each row lists cells in non-decreasing id order, all of them already scanned |
| VertexIncidence.CellsAtStrictlyAscending | test-harness/fixtures/mesh_grid.rs:375-382 | when every cell has three distinct corners, each row is strictly ascending (no cell twice) |
| VertexIncidence.CellsAtPrefix | test-harness/fixtures/mesh_grid.rs:375-382 | scanning further only appends to a row |
| VertexIncidence.CornersBelowZero | test-harness/fixtures/mesh_grid.rs:365-367 | the first offset is 0 |
| VertexIncidence.CornersBelowStep | test-harness/fixtures/mesh_grid.rs:366-369 | the running sum advances by vertex `v`'s count: `offsets[v+1] = offsets[v] + count[v]` |
| VertexIncidence.CornersBelowMonotone | test-harness/fixtures/mesh_grid.rs:364-370 | the offsets never decrease |
| VertexIncidence.CornersBelowAll | test-harness/fixtures/mesh_grid.rs:370 | when every corner is a valid vertex, the last offset is the number of corners `3F` |
| VertexIncidence.EdgesAtMembers | test-harness/fixtures/mesh_grid.rs:400-406 | edge `e` is in vertex `v`'s list exactly when `v` is one of its endpoints |
| VertexIncidence.EdgesAtAscending | test-harness/fixtures/mesh_grid.rs:400-406 | before the sort each list is in non-decreasing id order, with ids below `E` |
| VertexIncidence.EdgesAtStrictlyAscending | test-harness/fixtures/mesh_grid.rs:400-406 | without degenerate edges each list is strictly ascending |
| VertexIncidence.EdgesAtPrefix | test-harness/fixtures/mesh_grid.rs:400-406 | collecting further edges only appends to a list |
| VertexIncidence.EndsBelowZero | test-harness/fixtures/mesh_grid.rs:453-454 | the first Vertex->Edge offset is 0 |
| VertexIncidence.EndsBelowStep | test-harness/fixtures/mesh_grid.rs:453-456 | each Vertex->Edge offset advances by its vertex's list length |
| VertexIncidence.EndsBelowMonotone | test-harness/fixtures/mesh_grid.rs:450-458 | the Vertex->Edge offsets never decrease |
| VertexIncidence.EndsBelowAll | test-harness/fixtures/mesh_grid.rs:458 | when every endpoint is a valid vertex, the lists hold `2E` entries in all |
| VertexIncidence.CellsAtCountsCorners | test-harness/fixtures/mesh_grid.rs:375-382 | the length of vertex `v`'s cell list is the number of corners on `v` |
| VertexIncidence.EdgesAtCountsEdges | test-harness/fixtures/mesh_grid.rs:400-406 | without self-loop edges, the length of vertex `v`'s edge list is the number of edges with `v` as an endpoint |
| VertexIncidence.NoSelfLoops | test-harness/fixtures/mesh_grid.rs:197-205 | on a closed manifold every numbered edge has a first vertex strictly below its second |
| VertexIncidence.CornerIdsInjective | test-harness/fixtures/mesh_grid.rs:197-205 | on a closed manifold two local edges leaving the same vertex get different edge ids |
| VertexIncidence.EdgesOnHaveCorner | test-harness/fixtures/mesh_grid.rs:197-205 | on a closed manifold every edge at `v` is the edge of some local edge leaving `v` |
| VertexIncidence.DegreesAgree | test-harness/fixtures/mesh_grid.rs:349-406 | the closed-fan property: on a closed manifold, vertex `v`'s edge list and cell list have the same length |
| VertexCell.Increment | test-harness/fixtures/mesh_grid.rs:359 | `counts[i] += 1` changes entry `i` alone |
| VertexCell.Store | test-harness/fixtures/mesh_grid.rs:379 | `indices[i] = x` changes entry `i` alone |
| VertexCell.CountedStep | test-harness/fixtures/mesh_grid.rs:359-361 | counting one more corner keeps every count equal to its vertex's corners so far |
| VertexCell.CountedCell | test-harness/fixtures/mesh_grid.rs:358-361 | the three increments of one cell keep the counts exact |
| VertexCell.CountCorners | test-harness/fixtures/mesh_grid.rs:356-362 | `counts[v]` is the number of corners on vertex `v` |
| VertexCell.RunningOffsets | test-harness/fixtures/mesh_grid.rs:364-370 | `offsets[v]` is the number of corners on vertices below `v`, for every `v` up to `V` |
| VertexCell.RowsDisjoint | test-harness/fixtures/mesh_grid.rs:364-370 | the slot range of vertex `v` ends at or before the start of every higher vertex's range |
| VertexCell.HoldsKept | test-harness/fixtures/mesh_grid.rs:379 | a write outside a row's slots leaves the row |
| VertexCell.HoldsGrown | test-harness/fixtures/mesh_grid.rs:379-380 | a write just past a row's filled slots extends the row by that value |
| VertexCell.RowPlacedKept | test-harness/fixtures/mesh_grid.rs:378-380 | a corner on another vertex leaves vertex `v`'s row as it is |
| VertexCell.RowPlacedGrown | test-harness/fixtures/mesh_grid.rs:378-380 | a corner on `v` appends its cell to `v`'s row |
| VertexCell.CursorInRow | test-harness/fixtures/mesh_grid.rs:378-379 | the write cursor of a corner's vertex lies inside that vertex's own slot range |
| VertexCell.OtherRowKept | test-harness/fixtures/mesh_grid.rs:378-380 | placing a corner writes inside its own vertex's row, so every other vertex's row is kept |
| VertexCell.CursorBound | test-harness/fixtures/mesh_grid.rs:379 | the cursor of a corner's vertex is its row start plus the corners placed so far, and indexes inside `indices` |
| VertexCell.CursorsAdvanced | test-harness/fixtures/mesh_grid.rs:380 | `write_pos[v] += 1` advances the placing corner's cursor and no other |
| VertexCell.RowsAdvanced | test-harness/fixtures/mesh_grid.rs:379 | the write appends the corner's cell to its vertex's row and keeps every other row |
| VertexCell.PlacedStep | test-harness/fixtures/mesh_grid.rs:378-380 | the cursor of the corner's vertex lies inside that vertex's own row and inside `indices`, and writing the cell there and advancing the cursor extends the placement by one corner |
| VertexCell.PlacedInitially | test-harness/fixtures/mesh_grid.rs:372-373 | the cursors start at the row starts, with every row empty |
| VertexCell.CursorsEndAtRowEnds | test-harness/fixtures/mesh_grid.rs:375-382 | once every corner is placed, cursor `v` has reached `offsets[v+1]` |
| VertexCell.PlaceCellCorners | test-harness/fixtures/mesh_grid.rs:376-381 | one cell's three corners extend the placement from corner `3c` to `3c+3` |
| VertexCell.PlaceCells | test-harness/fixtures/mesh_grid.rs:372-382 | the slots of each vertex's range hold the cells of its corners in scan order, and the final cursor of every vertex `v` is `offsets[v+1]` |
| VertexCell.RowFromPlaced | test-harness/fixtures/mesh_grid.rs:384-388 | a placed row sliced by its two offsets is exactly the vertex's cell list |
| VertexCell.BuildVertexCell | test-harness/fixtures/mesh_grid.rs:349-390 | Vertex->Cell is well formed with `V` rows; its offsets are the prefix sums of the corner counts and end at `3F`; row `v` is the ascending list of the cells with a corner on `v` |
| VertexEdge.Push | test-harness/fixtures/mesh_grid.rs:404-405 | pushing onto list `v` appends to it alone |
| VertexEdge.CollectedStep | test-harness/fixtures/mesh_grid.rs:400-406 | pushing edge `e` onto both endpoint lists extends every list to the first `e+1` edges |
| VertexEdge.CollectEdges | test-harness/fixtures/mesh_grid.rs:399-406 | before the sort, list `v` is the ascending list of edges with `v` as an endpoint |
| VertexEdge.SortRows | test-harness/fixtures/mesh_grid.rs:408-448 | the angular sort keeps every list as a permutation of itself |
| VertexEdge.FlatRow | test-harness/fixtures/mesh_grid.rs:453-456 | after the concatenation, list `v` sits between the running lengths before and after it |
| VertexEdge.Concat | test-harness/fixtures/mesh_grid.rs:450-458 | `offsets[v]` is the total length of lists `0..v-1`, and `indices` is all lists concatenated |
| VertexEdge.FlatLenIsEndsBelow | test-harness/fixtures/mesh_grid.rs:450-458 | the running lengths equal the number of endpoints on lower vertices |
| VertexEdge.ConcatIsRelation | test-harness/fixtures/mesh_grid.rs:450-458 | the concatenation is a well-formed relation whose row `v` is list `v`, with `2E` indices |
| VertexEdge.BuildVertexEdge | test-harness/fixtures/mesh_grid.rs:392-466 | Vertex->Edge is well formed with `V` rows and `2E` indices; offsets count the endpoints on lower vertices; row `v` is a permutation of the edges incident to `v` |
| TripletMatrix.Empty | test-harness/fixtures/mesh_grid.rs:720 | a new triplet matrix has the given shape and no triplets |
| TripletMatrix.AddTriplet | test-harness/fixtures/mesh_grid.rs:727-728 | `add_triplet` keeps the shape and appends one triplet, which must lie inside the shape |
| TripletMatrix.ProductOfLast | test-harness/fixtures/mesh_grid.rs:811 | the product splits over the left operand's last triplet |
| TripletMatrix.ProductByTriplets | test-harness/fixtures/mesh_grid.rs:811 | an entry of the product is the sum, over the left operand's triplets in row `i`, of value times the right operand's entry |
| TripletMatrix.ProductOfEmpty | test-harness/fixtures/mesh_grid.rs:811 | a product with no left triplets is 0 |
| ExteriorDerivative.EdgeEnds | test-harness/fixtures/mesh_grid.rs:723-725 | one endpoint pair is read for each edge row |
| ExteriorDerivative.D0Of | test-harness/fixtures/mesh_grid.rs:722-729 | two triplets per edge |
| ExteriorDerivative.BuildD0 | test-harness/fixtures/mesh_grid.rs:718-732 | `d0` has shape `E x V`, and its triplets are, edge by edge, -1 at the first and +1 at the second vertex of the edge's row |
| ExteriorDerivative.D0Entry | test-harness/fixtures/mesh_grid.rs:727-728 | entry `(e, v)` of `d0` is +1 at the higher vertex, -1 at the lower one and 0 elsewhere |
| ExteriorDerivative.D0RowSum | test-harness/fixtures/mesh_grid.rs:819-832 | every row of `d0` sums to 0 |
| ExteriorDerivative.EdgeEndsOfMesh | test-harness/fixtures/mesh_grid.rs:723-725 | on the mesh's Edge->Vertex relation the endpoints read are the edge list of the shared numbering |
| ExteriorDerivative.CellTriplets | test-harness/fixtures/mesh_grid.rs:749-768 | one triplet per local edge read |
| ExteriorDerivative.D1Of | test-harness/fixtures/mesh_grid.rs:745-769 | three triplets per cell |
| ExteriorDerivative.AddCellTriplets | test-harness/fixtures/mesh_grid.rs:749-768 | one cell appends its three triplets, in local-edge order |
| ExteriorDerivative.BuildD1 | test-harness/fixtures/mesh_grid.rs:734-772 | `d1` has shape `F x E`, and its triplets are, cell by cell and local edge by local edge, `(c, edge id, -1 if the local start is the edge's first stored vertex, else +1)` |
| ExteriorDerivative.CellTripletsElement | test-harness/fixtures/mesh_grid.rs:749-768 | triplet `k` of a cell is local edge `k`'s triplet |
| ExteriorDerivative.D1OfElement | test-harness/fixtures/mesh_grid.rs:745-769 | triplet `3c+k` of `d1` is local edge `k` of cell `c`'s triplet |
| ExteriorDerivative.Orientation | test-harness/fixtures/mesh_grid.rs:761-765 | the sign is -1 exactly when the edge is traversed in canonical direction (its start is the canonical lower vertex), and +1 otherwise |
| ExteriorDerivative.D1Ref | test-harness/fixtures/mesh_grid.rs:745-769 | a reference `d1` written on the scan alone: one triplet per local edge |
| ExteriorDerivative.D1RefElement | test-harness/fixtures/mesh_grid.rs:745-769 | reference triplet `j` is `(j/3, shared id of local edge j, its orientation)` |
| ExteriorDerivative.D1TripletOfMesh | test-harness/fixtures/mesh_grid.rs:750-767 | read through the mesh's Cell->Edge and Edge->Vertex, each `d1` triplet carries the shared id and the orientation sign |
| ExteriorDerivative.D1InputsOfMesh | test-harness/fixtures/mesh_grid.rs:752-760 | on the mesh's own relations, `build_d1`'s `nth` and `next` reads always find an entry |
| ExteriorDerivative.D1OfMesh | test-harness/fixtures/mesh_grid.rs:745-769 | on the mesh's relations `build_d1`'s triplets equal the reference triplets |
| ExteriorDerivative.RefTerm | test-harness/fixtures/mesh_grid.rs:811 | a local edge contributes +1 at its start vertex and -1 at its end vertex to `d1 d0` |
| ExteriorDerivative.RefProduct | test-harness/fixtures/mesh_grid.rs:811 | entry `(i, v)` of reference `d1` times `d0` is the sum of those directed contributions |
| ExteriorDerivative.DirectedSumCloses | test-harness/fixtures/mesh_grid.rs:797-817 | around each triangle the three directed contributions cancel, so the sum over whole cells is 0 |
| ExteriorDerivative.BoundaryOfBoundaryOnScan | test-harness/fixtures/mesh_grid.rs:797-817 | for any triangle list, every entry of reference `d1` times the `d0` of the shared edge list is 0 |
| ExteriorDerivative.BoundaryOfBoundary | test-harness/fixtures/mesh_grid.rs:797-817 | every entry of `d1 d0` is 0 |
| MeshGrid.Corners | test-harness/fixtures/mesh_grid.rs:601-604 | three corners per record |
| MeshGrid.BuildCells | test-harness/fixtures/mesh_grid.rs:588-605 | one record per triangle, and record `c` holds the triangle's indices `3c`, `3c+1`, `3c+2` in order |
| MeshGrid.CornersAppend | test-harness/fixtures/mesh_grid.rs:601-604 | appending a record leaves the earlier records' corners |
| MeshGrid.CornersElement | test-harness/fixtures/mesh_grid.rs:601-604 | record `c`'s three vertices are flattened corners `3c..3c+2` |
| MeshGrid.CellRecordsMatchVertexCell | test-harness/fixtures/mesh_grid.rs:588-605 | cell `c` is in Vertex->Cell row `v` exactly when `v` is one of record `c`'s vertices |
| MeshGrid.New | test-harness/fixtures/mesh_grid.rs:492-622 | the constructor yields all six relations and the cell records, each with its builder's full guarantee |
| MeshGrid.CellEdgeMatchesEdgeVertex | test-harness/fixtures/mesh_grid.rs:221-226 | the Edge->Vertex row of edge `CellEdge.get(c)[k]` is `(min, max)` of local edge `k` of `c`, so first <= second |
| MeshGrid.CellEdgeMatchesEdgeCell | test-harness/fixtures/mesh_grid.rs:279-283 | the Edge->Cell row of edge `CellEdge.get(c)[k]` holds that canonical pair's two slots |
| MeshGrid.VertexDegreesAgree | test-harness/fixtures/mesh_grid.rs:142-144 | on a closed manifold, `count(v)` of the built Vertex->Edge equals `count(v)` of the built Vertex->Cell for every vertex |
| MeshGrid.Derivatives | test-harness/fixtures/mesh_grid.rs:797-832 | on the mesh's own relations `d0` is `E x V` with every row summing to 0, `d1` is `F x E`, and every entry of `d1 d0` is 0, with no manifold assumption |

## Left out

- Float geometry is not modelled. This covers the tangent-plane angle keys of the Vertex->Edge
  sort (lines 413-445), `vertex_angle_offsets` and its pole handling (505-586), the cell
  centres (595-599), `mesh()` (625-644), `calculate_gaussian_curvature` (679-716) and its
  Gauss-Bonnet test (780-795). `CellData` keeps only `vertices`.
- `calculate_trivial_connection` (646-677) is not modelled: it works on floats, ends in `todo!()`
  and is never called.
- IcoSphere generation (493) is an external crate. It is replaced by the input `tris` and by
  `numVertices`, which stands for `points.len()`.
- The bevy and `Arc` plumbing (47-105, 481-487) is not modelled.
- sprs is a foreign library. `to_csr` is not modelled: a matrix stays a triplet sequence, and
  duplicate triplets add up, as in sprs's conversion. The matrix product is defined here on
  entries. Values are `int` rather than `f64`, so the tests' `f64::EPSILON` tolerance becomes
  exact equality.
- `u32` and `usize` casts and overflow are not modelled: all counters and ids are `nat`.
- The occurrence counter `entry.2` (270) is never read, so it is not modelled.
- The `HashMap` iteration order is not modelled. The write passes visit the keys in an
  arbitrary order, so their result holds for every order.
- VertexEdge.SortRows: the angular sort is stated only as a permutation of each row, because
  its keys are float geometry.
- VertexEdge.BuildVertexEdge: row `v` is stated as a permutation of the incident edges, not as
  their angular order.
- VertexCell.BuildVertexCell, VertexEdge.BuildVertexEdge, MeshGrid.New and
  MeshGrid.Derivatives require every corner of a whole cell to be below `numVertices`.
  Trailing entries past the last whole cell are unconstrained, since the source never reads
  them. The source panics on an out-of-range corner, and that panic is not modelled as an
  error value.
- The closed-manifold property says that each directed local edge occurs once and has a
  reverse. Only the results that need it assume it:
  - the Cell->Cell facts `NeighborAcross`, `NeighborSymmetric`, `EdgeSlots` and
    `ReverseInOtherCell`;
  - the closed-fan facts `NoSelfLoops`, `CornerIdsInjective`, `EdgesOnHaveCorner`,
    `DegreesAgree` and `VertexDegreesAgree`.
  Every other result holds without the closed-manifold assumption, including on a list whose
  length is not a multiple of three; the trailing indices are then ignored, as the source's
  `len() / 3` does. Some results carry other hypotheses:
  - `CellsAtStrictlyAscending` needs three distinct corners per cell (`DistinctCorners`);
  - `EdgesAtStrictlyAscending` and `EdgesAtCountsEdges` need every edge to have two different
    endpoints, which `NoSelfLoops` gives on a closed manifold;
  - the builders need the corner bound of the bullet above.
