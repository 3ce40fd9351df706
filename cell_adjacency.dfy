/** Cell->Cell: built from Cell->Edge and Edge->Cell. Across each of its local edges a cell
    sees the edge's other slot. */
module CellAdjacency {
  import opened Csr
  import opened EdgeNumbering
  import opened CellIncidence
  import opened EdgeBuilders

  /** The neighbour across one edge: slot 1 when slot 0 holds the cell, slot 0 otherwise. */
  method OtherCell(edgeCells: Adjacency<EdgeCellTag>, edgeIdx: nat, cellIdx: nat) returns (neighbor: nat)
    requires RowInRange(edgeCells, edgeIdx) && Count(edgeCells, edgeIdx) == 2
    ensures var cells := Get(edgeCells, edgeIdx);
      neighbor == if cells[0] == cellIdx then cells[1] else cells[0]
    ensures neighbor in Get(edgeCells, edgeIdx)
    ensures var cells := Get(edgeCells, edgeIdx);
      cellIdx in cells && cells[0] != cells[1] ==> neighbor != cellIdx && multiset{neighbor, cellIdx} == multiset(cells)
  {
    var cells := Get(edgeCells, edgeIdx);
    neighbor := if cells[0] == cellIdx then cells[1] else cells[0];
    assert cells == [cells[0], cells[1]];
  }

  /** The neighbour of cell `c` across the edge its Cell->Edge row lists `k`-th. */
  method NeighborAt(tris: seq<nat>, cellEdges: Adjacency<CellEdgeTag>, edgeCells: Adjacency<EdgeCellTag>,
                    c: nat, k: nat, edgeIdx: nat) returns (neighbor: nat)
    requires c < NumCells(tris) && k < 3
    requires BuiltCellEdge(tris, cellEdges) && BuiltEdgeCell(tris, edgeCells)
    requires edgeIdx == cellEdges.indices[3 * c + k]
    ensures neighbor == Neighbor(tris, c, k)
  {
    DirOfCell(tris, c, k);
    LocalEdgeId(tris, 3 * c + k);
    ValidRowsInRange(edgeCells, edgeIdx);
    neighbor := OtherCell(edgeCells, edgeIdx, c);
  }

  /** Cell `c`'s row of Cell->Cell: for each edge of its Cell->Edge row, in local order, the
      other cell of that edge. */
  method CellRow(tris: seq<nat>, cellEdges: Adjacency<CellEdgeTag>, edgeCells: Adjacency<EdgeCellTag>, c: nat)
    returns (row: seq<nat>)
    requires c < NumCells(tris)
    requires BuiltCellEdge(tris, cellEdges) && BuiltEdgeCell(tris, edgeCells)
    ensures |row| == 3
    ensures forall k | 0 <= k < 3 :: row[k] == Neighbor(tris, c, k)
  {
    ValidRowsInRange(cellEdges, c);
    var edges := Get(cellEdges, c);
    row := [];
    for k := 0 to |edges|
      invariant |row| == k
      invariant forall k' | 0 <= k' < k :: row[k'] == Neighbor(tris, c, k')
    {
      var neighbor := NeighborAt(tris, cellEdges, edgeCells, c, k, edges[k]);
      row := row + [neighbor];
    }
  }

  /** The first `c` rows of Cell->Cell are in place, three entries each. */
  ghost predicate NeighborsPlaced(tris: seq<nat>, indices: seq<nat>, c: nat)
    requires c <= NumCells(tris)
  {
    forall c', k | 0 <= c' < c && 0 <= k < 3 :: 3 * c' + k < |indices| && indices[3 * c' + k] == Neighbor(tris, c', k)
  }

  /** Appending cell `c`'s row places one more row. */
  lemma NeighborsPlacedStep(tris: seq<nat>, indices: seq<nat>, c: nat, row: seq<nat>)
    requires c < NumCells(tris) && |indices| == 3 * c
    requires NeighborsPlaced(tris, indices, c)
    requires |row| == 3 && forall k | 0 <= k < 3 :: row[k] == Neighbor(tris, c, k)
    ensures NeighborsPlaced(tris, indices + row, c + 1)
  {
    var indices' := indices + row;
    forall c', k | 0 <= c' < c + 1 && 0 <= k < 3
      ensures 3 * c' + k < |indices'| && indices'[3 * c' + k] == Neighbor(tris, c', k)
    {
      if c' < c {
        var expected := Neighbor(tris, c', k);
        assert indices[3 * c' + k] == expected;
      } else {
        assert indices'[3 * c' + k] == row[k];
      }
    }
  }

  /** Cell->Cell: row `c` holds, in local-edge order, the cell across each local edge of `c`. */
  method BuildCell(tris: seq<nat>) returns (adj: Adjacency<CellTag>)
    ensures Valid(adj) && Len(adj) == NumCells(tris)
    ensures forall c | 0 <= c <= NumCells(tris) :: adj.offsets[c] == 3 * c
    ensures |adj.indices| == NumLocal(tris)
    ensures forall c, k | 0 <= c < NumCells(tris) && 0 <= k < 3 :: adj.indices[3 * c + k] == Neighbor(tris, c, k)
  {
    var edgeCells := BuildEdgeCell(tris);
    var cellEdges := BuildCellEdge(tris);
    var numCells := Len(cellEdges);
    var offsets: seq<nat> := [];
    var indices: seq<nat> := [];
    for c := 0 to numCells
      invariant |offsets| == c && |indices| == 3 * c
      invariant forall c' | 0 <= c' < c :: offsets[c'] == 3 * c'
      invariant NeighborsPlaced(tris, indices, c)
    {
      offsets := offsets + [|indices|];
      var row := CellRow(tris, cellEdges, edgeCells, c);
      NeighborsPlacedStep(tris, indices, c, row);
      indices := indices + row;
    }
    offsets := offsets + [|indices|];
    adj := Adjacency(offsets, indices);
  }
}
