/** The mesh grid: the per-cell records and the six relations built from one triangle list,
    and the cross-relation facts that hold because every builder numbers edges the same way. */
module MeshGrid {
  import opened Csr
  import opened EdgeNumbering
  import opened CellIncidence
  import opened VertexIncidence
  import opened EdgeBuilders
  import opened CellAdjacency
  import opened VertexCell
  import opened VertexEdge
  import opened TripletMatrix
  import opened ExteriorDerivative

  /** The topological part of a cell record: its three corner vertices in winding order. */
  datatype CellData = CellData(vertices: (nat, nat, nat))

  /** The corners of the first `n` cell records, flattened in order. */
  function Corners(cells: seq<CellData>, n: nat): (r: seq<nat>)
    requires n <= |cells|
    ensures |r| == 3 * n
  {
    if n == 0 then []
    else
      var v := cells[n - 1].vertices;
      Corners(cells, n - 1) + [v.0, v.1, v.2]
  }

  /** One record per triangle, holding the triangle's three indices. */
  method BuildCells(tris: seq<nat>) returns (cells: seq<CellData>)
    ensures |cells| == NumCells(tris)
    ensures Corners(cells, |cells|) == tris[..NumLocal(tris)]
  {
    var numTriangles := |tris| / 3;
    cells := [];
    for triIdx := 0 to numTriangles
      invariant |cells| == triIdx && Corners(cells, triIdx) == tris[..3 * triIdx]
    {
      var base := triIdx * 3;
      var v0, v1, v2 := tris[base], tris[base + 1], tris[base + 2];
      CornersAppend(cells, CellData((v0, v1, v2)), triIdx);
      cells := cells + [CellData((v0, v1, v2))];
      assert tris[..3 * (triIdx + 1)] == tris[..3 * triIdx] + [v0, v1, v2];
    }
  }

  /** Appending a record leaves the flattened corners of the earlier records unchanged. */
  lemma {:induction false} CornersAppend(cells: seq<CellData>, x: CellData, n: nat)
    requires n <= |cells|
    ensures Corners(cells + [x], n) == Corners(cells, n)
  {
    if n > 0 {
      CornersAppend(cells, x, n - 1);
      assert (cells + [x])[n - 1] == cells[n - 1];
    }
  }

  /** Reading the flattened corners back: record `c` holds corners `3c`, `3c+1`, `3c+2`. */
  lemma {:induction false} CornersElement(cells: seq<CellData>, n: nat, c: nat)
    requires c < n <= |cells|
    ensures Corners(cells, n)[3 * c] == cells[c].vertices.0
    ensures Corners(cells, n)[3 * c + 1] == cells[c].vertices.1
    ensures Corners(cells, n)[3 * c + 2] == cells[c].vertices.2
  {
    if c < n - 1 {
      CornersElement(cells, n - 1, c);
    }
  }

  /** The records agree with Vertex->Cell: cell `c` is listed for vertex `v` exactly when
      `v` is one of the record's corners. */
  lemma {:induction false} CellRecordsMatchVertexCell(tris: seq<nat>, cells: seq<CellData>, c: nat, v: nat)
    requires |cells| == NumCells(tris) && Corners(cells, |cells|) == tris[..NumLocal(tris)]
    requires c < |cells|
    ensures c in CellsAt(tris, v, NumLocal(tris))
        <==> (cells[c].vertices.0 == v || cells[c].vertices.1 == v || cells[c].vertices.2 == v)
  {
    CornersElement(cells, |cells|, c);
    CellsAtIffCorner(tris, v, c);
  }

  /** What the Vertex->Cell builder guarantees. */
  ghost predicate BuiltVertexCell(tris: seq<nat>, numVertices: nat, adj: Adjacency<VertexCellTag>)
  {
    && Valid(adj) && Len(adj) == numVertices && |adj.indices| == NumLocal(tris)
    && (forall v | 0 <= v <= numVertices :: adj.offsets[v] == CornersBelow(tris, v, NumLocal(tris)))
    && forall v | 0 <= v < numVertices :: RowInRange(adj, v) && Get(adj, v) == CellsAt(tris, v, NumLocal(tris))
  }

  /** What the Vertex->Edge builder guarantees. */
  ghost predicate BuiltVertexEdge(tris: seq<nat>, numVertices: nat, adj: Adjacency<VertexEdgeTag>)
  {
    && Valid(adj) && Len(adj) == numVertices && |adj.indices| == 2 * NumEdges(tris)
    && (forall v | 0 <= v <= numVertices :: adj.offsets[v] == EndsBelow(EdgeList(tris), v, NumEdges(tris)))
    && forall v | 0 <= v < numVertices ::
      RowInRange(adj, v) && multiset(Get(adj, v)) == multiset(EdgesAt(EdgeList(tris), v, NumEdges(tris)))
  }

  /** What the Cell->Cell builder guarantees. */
  ghost predicate BuiltCell(tris: seq<nat>, adj: Adjacency<CellTag>)
  {
    && Valid(adj) && Len(adj) == NumCells(tris)
    && (forall c | 0 <= c <= NumCells(tris) :: adj.offsets[c] == 3 * c)
    && |adj.indices| == NumLocal(tris)
    && forall c, k | 0 <= c < NumCells(tris) && 0 <= k < 3 :: adj.indices[3 * c + k] == Neighbor(tris, c, k)
  }

  /** The topology of a mesh grid: every relation and the cell records. */
  datatype Topology = Topology(
    cellAdjacency: Adjacency<CellTag>,
    cellEdgeAdjacency: Adjacency<CellEdgeTag>,
    cells: seq<CellData>,
    edgeCellAdjacency: Adjacency<EdgeCellTag>,
    edgeVertexAdjacency: Adjacency<EdgeVertexTag>,
    vertexCellAdjacency: Adjacency<VertexCellTag>,
    vertexEdgeAdjacency: Adjacency<VertexEdgeTag>)

  ghost predicate Built(tris: seq<nat>, numVertices: nat, g: Topology)
  {
    && BuiltCell(tris, g.cellAdjacency)
    && BuiltCellEdge(tris, g.cellEdgeAdjacency)
    && |g.cells| == NumCells(tris) && Corners(g.cells, |g.cells|) == tris[..NumLocal(tris)]
    && BuiltEdgeCell(tris, g.edgeCellAdjacency)
    && BuiltEdgeVertex(tris, g.edgeVertexAdjacency)
    && BuiltVertexCell(tris, numVertices, g.vertexCellAdjacency)
    && BuiltVertexEdge(tris, numVertices, g.vertexEdgeAdjacency)
  }

  /** Builds every relation and the cell records from a triangle list over `numVertices`
      vertices. */
  method New(tris: seq<nat>, numVertices: nat) returns (g: Topology)
    requires CornersInRange(tris, numVertices)
    ensures Built(tris, numVertices, g)
  {
    var cellAdjacency := BuildCell(tris);
    var cellEdgeAdjacency := BuildCellEdge(tris);
    var edgeCellAdjacency := BuildEdgeCell(tris);
    var edgeVertexAdjacency := BuildEdgeVertex(tris);
    var vertexCellAdjacency := BuildVertexCell(tris, numVertices);
    var vertexEdgeAdjacency := BuildVertexEdge(tris, numVertices);
    var cells := BuildCells(tris);
    g := Topology(cellAdjacency, cellEdgeAdjacency, cells, edgeCellAdjacency,
                  edgeVertexAdjacency, vertexCellAdjacency, vertexEdgeAdjacency);
  }

  /** The separately built relations agree on edge ids: the Edge->Vertex row of the edge
      that Cell->Edge lists as local edge `k` of cell `c` is that local edge's canonical
      (lower, higher) vertex pair. */
  lemma CellEdgeMatchesEdgeVertex(tris: seq<nat>, g: Topology, c: nat, k: nat)
    requires BuiltCellEdge(tris, g.cellEdgeAdjacency) && BuiltEdgeVertex(tris, g.edgeVertexAdjacency)
    requires c < NumCells(tris) && k < 3
    ensures RowInRange(g.cellEdgeAdjacency, c) && |Get(g.cellEdgeAdjacency, c)| == 3
    ensures Get(g.cellEdgeAdjacency, c)[k] < Len(g.edgeVertexAdjacency)
    ensures RowInRange(g.edgeVertexAdjacency, Get(g.cellEdgeAdjacency, c)[k])
    ensures Get(g.edgeVertexAdjacency, Get(g.cellEdgeAdjacency, c)[k])
      == [Canon(LocalEdge(tris, c, k)).0, Canon(LocalEdge(tris, c, k)).1]
  {
    var ce, ev := g.cellEdgeAdjacency, g.edgeVertexAdjacency;
    ValidRowsInRange(ce, c);
    DirOfCell(tris, c, k);
    LocalEdgeId(tris, 3 * c + k);
    var e := Get(ce, c)[k];
    assert e == ce.indices[3 * c + k];
    ValidRowsInRange(ev, e);
  }

  /** The separately built relations agree on slots: the Edge->Cell row of the edge under
      local edge `k` of cell `c` is the pair of slots the neighbour of `c` is read from. */
  lemma {:induction false} CellEdgeMatchesEdgeCell(tris: seq<nat>, g: Topology, c: nat, k: nat)
    requires BuiltCellEdge(tris, g.cellEdgeAdjacency) && BuiltEdgeCell(tris, g.edgeCellAdjacency)
    requires c < NumCells(tris) && k < 3
    ensures RowInRange(g.cellEdgeAdjacency, c) && |Get(g.cellEdgeAdjacency, c)| == 3
    ensures Get(g.cellEdgeAdjacency, c)[k] < Len(g.edgeCellAdjacency)
    ensures RowInRange(g.edgeCellAdjacency, Get(g.cellEdgeAdjacency, c)[k])
    ensures var p := Canon(LocalEdge(tris, c, k));
      Get(g.edgeCellAdjacency, Get(g.cellEdgeAdjacency, c)[k])
      == [LastSlot(tris, NumLocal(tris), p, true), LastSlot(tris, NumLocal(tris), p, false)]
  {
    var ce, ec := g.cellEdgeAdjacency, g.edgeCellAdjacency;
    ValidRowsInRange(ce, c);
    DirOfCell(tris, c, k);
    LocalEdgeId(tris, 3 * c + k);
    var e := Get(ce, c)[k];
    assert e == ce.indices[3 * c + k];
    ValidRowsInRange(ec, e);
  }

  /** The closed-fan property on the built relations: on a closed manifold every vertex has
      the same degree in Vertex->Edge as in Vertex->Cell. */
  lemma VertexDegreesAgree(tris: seq<nat>, numVertices: nat, g: Topology, v: nat)
    requires BuiltVertexCell(tris, numVertices, g.vertexCellAdjacency)
    requires BuiltVertexEdge(tris, numVertices, g.vertexEdgeAdjacency)
    requires ClosedManifold(tris) && v < numVertices
    ensures RowInRange(g.vertexEdgeAdjacency, v) && RowInRange(g.vertexCellAdjacency, v)
    ensures Count(g.vertexEdgeAdjacency, v) == Count(g.vertexCellAdjacency, v)
  {
    var ve := g.vertexEdgeAdjacency;
    DegreesAgree(tris, v);
    assert |Get(ve, v)| == |multiset(Get(ve, v))| == |EdgesAt(EdgeList(tris), v, NumEdges(tris))|;
  }

  /** The checks of the two derivative tests, on any triangle list: with the vertex count
      taken from Vertex->Edge, every row of `d0` sums to zero and `d1 d0` is zero. */
  method Derivatives(tris: seq<nat>, numVertices: nat) returns (d0: TriMat, d1: TriMat)
    requires CornersInRange(tris, numVertices)
    ensures d0.rows == NumEdges(tris) && d0.cols == numVertices
    ensures d1.rows == NumCells(tris) && d1.cols == NumEdges(tris)
    ensures forall e :: RowSum(d0.entries, e) == 0
    ensures forall i, v :: Product(d1, d0, i, v) == 0
  {
    var g := New(tris, numVertices);
    var ev := g.edgeVertexAdjacency;
    EdgeEndsOfMesh(tris, ev, NumEdges(tris));
    ListedEdgesFromTris(tris, NumLocal(tris), numVertices);
    forall e | 0 <= e < Len(ev) ensures Get(ev, e)[0] < numVertices && Get(ev, e)[1] < numVertices {
      ValidRowsInRange(ev, e);
    }
    d0 := BuildD0(ev, Len(g.vertexEdgeAdjacency));
    D1InputsOfMesh(tris, g.cellEdgeAdjacency, ev);
    d1 := BuildD1(g.cellEdgeAdjacency, ev, tris);
    assert EdgeList(tris)[..NumEdges(tris)] == EdgeList(tris);
    forall e ensures RowSum(d0.entries, e) == 0 {
      D0RowSum(EdgeList(tris), e);
    }
    BoundaryOfBoundary(tris, g.cellEdgeAdjacency, ev, d0, d1);
  }
}
