/** The discrete exterior derivatives, assembled as triplet matrices: `d0` (edges x vertices)
    maps vertex values to edge differences, `d1` (cells x edges) sums a cell's edges with the
    cell's orientation. Applying both gives zero: the boundary of a boundary is empty. */
module ExteriorDerivative {
  import opened Csr
  import opened EdgeNumbering
  import opened EdgeBuilders
  import opened TripletMatrix

  // ---------------------------------------------------------------- d0

  /** Every edge row holds the two endpoints `build_d0` reads. */
  ghost predicate TwoEnded(ev: Adjacency<EdgeVertexTag>)
  {
    Valid(ev) && forall e | 0 <= e < Len(ev) :: RowInRange(ev, e) && Count(ev, e) >= 2
  }

  /** The first two entries of each of the first `n` edge rows. */
  function EdgeEnds(ev: Adjacency<EdgeVertexTag>, n: nat): (r: seq<Pair>)
    requires TwoEnded(ev) && n <= Len(ev)
    ensures |r| == n
  {
    if n == 0 then [] else EdgeEnds(ev, n - 1) + [(Get(ev, n - 1)[0], Get(ev, n - 1)[1])]
  }

  /** The triplets of `d0` for edges with the given endpoints: per edge, -1 at its first
      endpoint and +1 at its second. */
  function D0Of(ends: seq<Pair>): (ts: seq<Triplet>)
    ensures |ts| == 2 * |ends|
  {
    if |ends| == 0 then []
    else
      var e := |ends| - 1;
      D0Of(ends[..e]) + [Triplet(e, ends[e].0, -1), Triplet(e, ends[e].1, 1)]
  }

  /** `build_d0`: each edge row adds -1 at the lower and +1 at the higher vertex. */
  method BuildD0(edgeVertex: Adjacency<EdgeVertexTag>, numVertices: nat) returns (d0: TriMat)
    requires TwoEnded(edgeVertex)
    requires forall e | 0 <= e < Len(edgeVertex) ::
      Get(edgeVertex, e)[0] < numVertices && Get(edgeVertex, e)[1] < numVertices
    ensures d0.rows == Len(edgeVertex) && d0.cols == numVertices
    ensures d0.entries == D0Of(EdgeEnds(edgeVertex, Len(edgeVertex)))
  {
    var numEdges := Len(edgeVertex);
    d0 := Empty(numEdges, numVertices);
    for e := 0 to numEdges
      invariant d0.rows == numEdges && d0.cols == numVertices
      invariant d0.entries == D0Of(EdgeEnds(edgeVertex, e))
    {
      var verts := Get(edgeVertex, e);
      var lower, higher := verts[0], verts[1];
      d0 := AddTriplet(d0, e, lower, -1);
      d0 := AddTriplet(d0, e, higher, 1);
      assert EdgeEnds(edgeVertex, e + 1)[..e] == EdgeEnds(edgeVertex, e);
    }
  }

  /** Entry `(e, v)` of `d0` is +1 at the second endpoint, -1 at the first, 0 elsewhere
      (and 0 when both endpoints are `v`). */
  lemma {:induction false} D0Entry(ends: seq<Pair>, e: nat, v: nat)
    ensures Entry(D0Of(ends), e, v)
            == if e < |ends| then (if ends[e].1 == v then 1 else 0) - (if ends[e].0 == v then 1 else 0) else 0
  {
    if |ends| > 0 {
      var n := |ends| - 1;
      var ts := D0Of(ends);
      D0Entry(ends[..n], e, v);
      assert ts[..|ts| - 1][..|ts| - 2] == D0Of(ends[..n]);
    }
  }

  /** Every row of `d0` sums to zero. */
  lemma {:induction false} D0RowSum(ends: seq<Pair>, e: nat)
    ensures RowSum(D0Of(ends), e) == 0
  {
    if |ends| > 0 {
      var n := |ends| - 1;
      var ts := D0Of(ends);
      D0RowSum(ends[..n], e);
      assert ts[..|ts| - 1][..|ts| - 2] == D0Of(ends[..n]);
    }
  }

  /** On the mesh's own Edge->Vertex relation the endpoints read are the edge list. */
  lemma {:induction false} EdgeEndsOfMesh(tris: seq<nat>, ev: Adjacency<EdgeVertexTag>, n: nat)
    requires BuiltEdgeVertex(tris, ev) && n <= NumEdges(tris)
    ensures TwoEnded(ev)
    ensures EdgeEnds(ev, n) == EdgeList(tris)[..n]
  {
    if n > 0 {
      EdgeEndsOfMesh(tris, ev, n - 1);
      ValidRowsInRange(ev, n - 1);
    }
  }

  // ---------------------------------------------------------------- d1

  /** What `build_d1` reads without a panic: three edge ids per cell row, each naming an
      edge row that has a first entry, and three corners per cell. */
  ghost predicate D1Inputs(ce: Adjacency<CellEdgeTag>, ev: Adjacency<EdgeVertexTag>, tris: seq<nat>)
  {
    && Valid(ce) && Valid(ev) && 3 * Len(ce) <= |tris|
    && forall c | 0 <= c < Len(ce) ::
      && RowInRange(ce, c) && Count(ce, c) >= 3
      && forall k | 0 <= k < 3 :: Get(ce, c)[k] < Len(ev) && RowInRange(ev, Get(ce, c)[k]) && Count(ev, Get(ce, c)[k]) >= 1
  }

  /** The triplet for local edge `k` of cell `c`: the edge's id, signed -1 when the cell's
      corner `k` is the edge's first vertex and +1 otherwise. */
  function D1Triplet(ce: Adjacency<CellEdgeTag>, ev: Adjacency<EdgeVertexTag>, tris: seq<nat>, c: nat, k: nat): Triplet
    requires D1Inputs(ce, ev, tris) && c < Len(ce) && k < 3
  {
    var e := Get(ce, c)[k];
    Triplet(c, e, if Get(ev, e)[0] == tris[3 * c + k] then -1 else 1)
  }

  /** The triplets of the first `k` local edges of cell `c`. */
  function CellTriplets(ce: Adjacency<CellEdgeTag>, ev: Adjacency<EdgeVertexTag>, tris: seq<nat>, c: nat, k: nat): (ts: seq<Triplet>)
    requires D1Inputs(ce, ev, tris) && c < Len(ce) && k <= 3
    ensures |ts| == k
  {
    if k == 0 then [] else CellTriplets(ce, ev, tris, c, k - 1) + [D1Triplet(ce, ev, tris, c, k - 1)]
  }

  /** The triplets of the first `n` cells. */
  function D1Of(ce: Adjacency<CellEdgeTag>, ev: Adjacency<EdgeVertexTag>, tris: seq<nat>, n: nat): (ts: seq<Triplet>)
    requires D1Inputs(ce, ev, tris) && n <= Len(ce)
    ensures |ts| == 3 * n
  {
    if n == 0 then [] else D1Of(ce, ev, tris, n - 1) + CellTriplets(ce, ev, tris, n - 1, 3)
  }

  /** One cell of `build_d1`: its three local edges in order. */
  method AddCellTriplets(ce: Adjacency<CellEdgeTag>, ev: Adjacency<EdgeVertexTag>, tris: seq<nat>, c: nat, d1Before: TriMat)
    returns (d1: TriMat)
    requires D1Inputs(ce, ev, tris) && c < Len(ce)
    requires d1Before.rows == Len(ce) && d1Before.cols == Len(ev)
    ensures d1.rows == Len(ce) && d1.cols == Len(ev)
    ensures d1.entries == d1Before.entries + CellTriplets(ce, ev, tris, c, 3)
  {
    d1 := d1Before;
    var base := c * 3;
    for k := 0 to 3
      invariant d1.rows == Len(ce) && d1.cols == Len(ev)
      invariant d1.entries == d1Before.entries + CellTriplets(ce, ev, tris, c, k)
    {
      var vStart := tris[base + k];
      var edgeIdx := Get(ce, c)[k];
      var canonicalLower := Get(ev, edgeIdx)[0];
      var sign := if canonicalLower == vStart then -1 else 1;
      d1 := AddTriplet(d1, c, edgeIdx, sign);
    }
  }

  /** `build_d1`: for every cell and local edge, the edge's id with the orientation sign. */
  method BuildD1(cellEdge: Adjacency<CellEdgeTag>, edgeVertex: Adjacency<EdgeVertexTag>, tris: seq<nat>)
    returns (d1: TriMat)
    requires D1Inputs(cellEdge, edgeVertex, tris)
    ensures d1.rows == Len(cellEdge) && d1.cols == Len(edgeVertex)
    ensures d1.entries == D1Of(cellEdge, edgeVertex, tris, Len(cellEdge))
  {
    var numCells := Len(cellEdge);
    var numEdges := Len(edgeVertex);
    d1 := Empty(numCells, numEdges);
    for c := 0 to numCells
      invariant d1.rows == numCells && d1.cols == numEdges
      invariant d1.entries == D1Of(cellEdge, edgeVertex, tris, c)
    {
      d1 := AddCellTriplets(cellEdge, edgeVertex, tris, c, d1);
    }
  }

  lemma {:induction false} CellTripletsElement(ce: Adjacency<CellEdgeTag>, ev: Adjacency<EdgeVertexTag>, tris: seq<nat>, c: nat, m: nat, k: nat)
    requires D1Inputs(ce, ev, tris) && c < Len(ce) && k < m <= 3
    ensures CellTriplets(ce, ev, tris, c, m)[k] == D1Triplet(ce, ev, tris, c, k)
  {
    if k < m - 1 {
      CellTripletsElement(ce, ev, tris, c, m - 1, k);
    }
  }

  /** Row `c` of `d1` holds the triplets of cell `c`'s local edges, in local order. */
  lemma {:induction false} D1OfElement(ce: Adjacency<CellEdgeTag>, ev: Adjacency<EdgeVertexTag>, tris: seq<nat>, n: nat, c: nat, k: nat)
    requires D1Inputs(ce, ev, tris) && n <= Len(ce) && c < n && k < 3
    ensures D1Of(ce, ev, tris, n)[3 * c + k] == D1Triplet(ce, ev, tris, c, k)
  {
    var prev, last := D1Of(ce, ev, tris, n - 1), CellTriplets(ce, ev, tris, n - 1, 3);
    assert D1Of(ce, ev, tris, n) == prev + last;
    if c < n - 1 {
      D1OfElement(ce, ev, tris, n - 1, c, k);
    } else {
      CellTripletsElement(ce, ev, tris, c, 3, k);
    }
  }

  // ---------------------------------------------------------------- d1 on the mesh

  /** The orientation of a directed edge relative to its canonical form: -1 when it runs
      from the lower to the higher vertex, +1 when it runs the other way. */
  function Orientation(p: Pair): (s: int)
    ensures s == -1 <==> p.0 == Canon(p).0
    ensures s == 1 || s == -1
  {
    if p.0 <= p.1 then -1 else 1
  }

  /** The reference `d1` of a mesh: local edge `j` of the scan gives the triplet in row
      `j / 3` (its cell), column its edge id, value its orientation. */
  function D1Ref(tris: seq<nat>, n: nat): (ts: seq<Triplet>)
    requires n <= NumLocal(tris)
    ensures |ts| == n
  {
    if n == 0 then []
    else
      var j := n - 1;
      LocalEdgeId(tris, j);
      D1Ref(tris, j) + [Triplet(j / 3, EdgeIds(tris)[Canon(Dir(tris, j))], Orientation(Dir(tris, j)))]
  }

  lemma {:induction false} D1RefElement(tris: seq<nat>, n: nat, j: nat)
    requires j < n <= NumLocal(tris)
    ensures Canon(Dir(tris, j)) in EdgeIds(tris)
    ensures D1Ref(tris, n)[j] == Triplet(j / 3, EdgeIds(tris)[Canon(Dir(tris, j))], Orientation(Dir(tris, j)))
  {
    LocalEdgeId(tris, j);
    if j < n - 1 {
      D1RefElement(tris, n - 1, j);
    }
  }

  /** What `build_d1` computes from the mesh's own relations, one local edge at a time: the
      stored canonical lower vertex equals the local start exactly when the orientation is -1. */
  lemma D1TripletOfMesh(tris: seq<nat>, ce: Adjacency<CellEdgeTag>, ev: Adjacency<EdgeVertexTag>, c: nat, k: nat)
    requires BuiltCellEdge(tris, ce) && BuiltEdgeVertex(tris, ev) && D1Inputs(ce, ev, tris)
    requires c < NumCells(tris) && k < 3
    ensures 3 * c + k < NumLocal(tris) && Canon(Dir(tris, 3 * c + k)) in EdgeIds(tris)
    ensures D1Triplet(ce, ev, tris, c, k)
      == Triplet(c, EdgeIds(tris)[Canon(Dir(tris, 3 * c + k))], Orientation(Dir(tris, 3 * c + k)))
  {
    DirOfCell(tris, c, k);
    var j := 3 * c + k;
    LocalEdgeId(tris, j);
    var e := EdgeIds(tris)[Canon(Dir(tris, j))];
    assert Get(ce, c)[k] == ce.indices[j] == e;
    ValidRowsInRange(ev, e);
    assert Get(ev, e)[0] == ev.indices[2 * e] == Canon(Dir(tris, j)).0;
  }

  /** The mesh's own Cell->Edge and Edge->Vertex relations are valid inputs for `build_d1`. */
  lemma D1InputsOfMesh(tris: seq<nat>, ce: Adjacency<CellEdgeTag>, ev: Adjacency<EdgeVertexTag>)
    requires BuiltCellEdge(tris, ce) && BuiltEdgeVertex(tris, ev)
    ensures D1Inputs(ce, ev, tris)
  {
    forall c, k | 0 <= c < Len(ce) && 0 <= k < 3
      ensures Get(ce, c)[k] < Len(ev) && RowInRange(ev, Get(ce, c)[k]) && Count(ev, Get(ce, c)[k]) >= 1
    {
      DirOfCell(tris, c, k);
      LocalEdgeId(tris, 3 * c + k);
      ValidRowsInRange(ev, Get(ce, c)[k]);
    }
  }

  /** On the mesh's own relations `build_d1` produces the reference `d1`: the source's test
      "canonical lower vertex equals the local start" is the orientation of the local edge. */
  lemma {:induction false} D1OfMesh(tris: seq<nat>, ce: Adjacency<CellEdgeTag>, ev: Adjacency<EdgeVertexTag>)
    requires BuiltCellEdge(tris, ce) && BuiltEdgeVertex(tris, ev)
    ensures D1Inputs(ce, ev, tris) && Len(ce) == NumCells(tris)
    ensures D1Of(ce, ev, tris, Len(ce)) == D1Ref(tris, NumLocal(tris))
  {
    D1InputsOfMesh(tris, ce, ev);
    var n := NumCells(tris);
    forall j | 0 <= j < NumLocal(tris) ensures D1Of(ce, ev, tris, n)[j] == D1Ref(tris, NumLocal(tris))[j] {
      var c, k := j / 3, j % 3;
      assert j == 3 * c + k;
      D1OfElement(ce, ev, tris, n, c, k);
      D1TripletOfMesh(tris, ce, ev, c, k);
      D1RefElement(tris, NumLocal(tris), j);
    }
  }

  // ---------------------------------------------------------------- d1 d0

  /** The contribution of the first `n` local edges to entry `(i, v)` of `d1 d0`, written on
      the directed edges alone: each local edge of cell `i` gives +1 at its start and -1 at
      its end. */
  function DirectedSum(tris: seq<nat>, n: nat, i: nat, v: nat): int
    requires n <= NumLocal(tris)
  {
    if n == 0 then 0
    else
      var j := n - 1;
      var p := Dir(tris, j);
      DirectedSum(tris, j, i, v) + (if j / 3 == i then (if p.0 == v then 1 else 0) - (if p.1 == v then 1 else 0) else 0)
  }

  /** Local edge `j` contributes, through `d1` and then `d0`, +1 at its start and -1 at its end. */
  lemma {:induction false} RefTerm(tris: seq<nat>, j: nat, v: nat)
    requires j < NumLocal(tris)
    ensures Canon(Dir(tris, j)) in EdgeIds(tris)
    ensures Orientation(Dir(tris, j)) * Entry(D0Of(EdgeList(tris)), EdgeIds(tris)[Canon(Dir(tris, j))], v)
      == (if Dir(tris, j).0 == v then 1 else 0) - (if Dir(tris, j).1 == v then 1 else 0)
  {
    LocalEdgeId(tris, j);
    D0Entry(EdgeList(tris), EdgeIds(tris)[Canon(Dir(tris, j))], v);
  }

  lemma {:induction false} RefProduct(tris: seq<nat>, n: nat, i: nat, v: nat)
    requires n <= NumLocal(tris)
    ensures TripletProduct(D1Ref(tris, n), D0Of(EdgeList(tris)), i, v) == DirectedSum(tris, n, i, v)
  {
    if n > 0 {
      RefProduct(tris, n - 1, i, v);
      RefTerm(tris, n - 1, v);
      assert D1Ref(tris, n)[..n - 1] == D1Ref(tris, n - 1);
    }
  }

  /** The three local edges of a cell form a closed loop, so every whole number of cells
      contributes nothing. */
  lemma {:induction false} DirectedSumCloses(tris: seq<nat>, m: nat, i: nat, v: nat)
    requires m <= NumCells(tris)
    ensures DirectedSum(tris, 3 * m, i, v) == 0
  {
    if m > 0 {
      var c := m - 1;
      DirectedSumCloses(tris, c, i, v);
      DirOfCell(tris, c, 0);
      DirOfCell(tris, c, 1);
      DirOfCell(tris, c, 2);
      var x, y, z := tris[3 * c], tris[3 * c + 1], tris[3 * c + 2];
      assert DirectedSum(tris, 3 * c + 1, i, v)
        == (if c == i then (if x == v then 1 else 0) - (if y == v then 1 else 0) else 0);
      assert DirectedSum(tris, 3 * c + 2, i, v)
        == (if c == i then (if x == v then 1 else 0) - (if z == v then 1 else 0) else 0);
    }
  }

  /** `d1 d0 = 0` on the reference triplets of any triangle list: every entry of the product
      of `d1` (one signed triplet per local edge) and `d0` (the edge list's incidences) is zero. */
  lemma {:induction false} BoundaryOfBoundaryOnScan(tris: seq<nat>)
    ensures forall i, v :: ProductUpTo(D1Ref(tris, NumLocal(tris)), D0Of(EdgeList(tris)), i, v, NumEdges(tris)) == 0
  {
    var d1 := D1Ref(tris, NumLocal(tris));
    forall n | 0 <= n < |d1| ensures d1[n].col < NumEdges(tris) {
      D1RefElement(tris, NumLocal(tris), n);
      LocalEdgeId(tris, n);
    }
    forall i, v ensures ProductUpTo(d1, D0Of(EdgeList(tris)), i, v, NumEdges(tris)) == 0 {
      ProductByTriplets(d1, D0Of(EdgeList(tris)), i, v, NumEdges(tris));
      RefProduct(tris, NumLocal(tris), i, v);
      DirectedSumCloses(tris, NumCells(tris), i, v);
    }
  }

  /** `d1 d0 = 0`: for the relations built from any triangle list, every entry of the
      product of the two derivatives is zero. */
  lemma {:induction false} BoundaryOfBoundary(tris: seq<nat>, ce: Adjacency<CellEdgeTag>, ev: Adjacency<EdgeVertexTag>, d0: TriMat, d1: TriMat)
    requires BuiltCellEdge(tris, ce) && BuiltEdgeVertex(tris, ev)
    requires TwoEnded(ev) && d0.entries == D0Of(EdgeEnds(ev, Len(ev)))
    requires D1Inputs(ce, ev, tris) && d1.cols == Len(ev) && d1.entries == D1Of(ce, ev, tris, Len(ce))
    ensures forall i, v :: Product(d1, d0, i, v) == 0
  {
    EdgeEndsOfMesh(tris, ev, NumEdges(tris));
    assert EdgeList(tris)[..NumEdges(tris)] == EdgeList(tris);
    D1OfMesh(tris, ce, ev);
    BoundaryOfBoundaryOnScan(tris);
  }
}
