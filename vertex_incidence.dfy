/** What the Vertex->Cell and Vertex->Edge relations hold, as functions of the triangle
    list and of the edge list: per vertex, the incident cells (one entry per corner) and
    the incident edges (one entry per endpoint), with the counts their offsets are built from. */
module VertexIncidence {
  import opened EdgeNumbering
  import opened CellIncidence

  // ---------------------------------------------------------------- Vertex -> Cell

  /** The cell of each of the first `n` corners that sits on vertex `v`, in scan order. */
  function CellsAt(tris: seq<nat>, v: nat, n: nat): seq<nat>
    requires n <= NumLocal(tris)
  {
    if n == 0 then []
    else CellsAt(tris, v, n - 1) + (if tris[n - 1] == v then [(n - 1) / 3] else [])
  }

  /** How many of the first `n` corners sit on a vertex below `v`. */
  function CornersBelow(tris: seq<nat>, v: nat, n: nat): nat
    requires n <= NumLocal(tris)
  {
    if n == 0 then 0
    else CornersBelow(tris, v, n - 1) + (if tris[n - 1] < v then 1 else 0)
  }

  /** Every corner of a whole cell names a vertex below `numVertices` (the builders index
      their per-vertex vectors with these corners and would panic otherwise; trailing entries
      past the last whole cell are never read). */
  ghost predicate CornersInRange(tris: seq<nat>, numVertices: nat)
  {
    forall i | 0 <= i < NumLocal(tris) :: tris[i] < numVertices
  }

  /** Vertex `v` is a corner of cell `c`. */
  predicate HasCorner(tris: seq<nat>, c: nat, v: nat)
    requires c < NumCells(tris)
  {
    tris[3 * c] == v || tris[3 * c + 1] == v || tris[3 * c + 2] == v
  }

  /** The three corners of every cell are distinct vertices. */
  ghost predicate DistinctCorners(tris: seq<nat>)
  {
    forall c | 0 <= c < NumCells(tris) ::
      tris[3 * c] != tris[3 * c + 1] && tris[3 * c + 1] != tris[3 * c + 2] && tris[3 * c + 2] != tris[3 * c]
  }

  lemma {:induction false} CellsAtMembers(tris: seq<nat>, v: nat, n: nat)
    requires n <= NumLocal(tris)
    ensures forall c :: c in CellsAt(tris, v, n) <==> exists j :: 0 <= j < n && tris[j] == v && j / 3 == c
  {
    if n > 0 {
      CellsAtMembers(tris, v, n - 1);
    }
  }

  /** Cell `c` is listed for vertex `v` exactly when `v` is one of its corners. */
  lemma {:induction false} CellsAtIffCorner(tris: seq<nat>, v: nat, c: nat)
    ensures c in CellsAt(tris, v, NumLocal(tris)) <==> c < NumCells(tris) && HasCorner(tris, c, v)
  {
    CellsAtMembers(tris, v, NumLocal(tris));
    if c < NumCells(tris) && HasCorner(tris, c, v) {
      var j := if tris[3 * c] == v then 3 * c else if tris[3 * c + 1] == v then 3 * c + 1 else 3 * c + 2;
      assert tris[j] == v && j / 3 == c;
    }
    if c in CellsAt(tris, v, NumLocal(tris)) {
      var j :| 0 <= j < NumLocal(tris) && tris[j] == v && j / 3 == c;
      assert j == 3 * c + j % 3;
    }
  }

  /** Cells are listed in ascending id order. */
  lemma {:induction false} CellsAtAscending(tris: seq<nat>, v: nat, n: nat)
    requires n <= NumLocal(tris)
    ensures forall a | 0 <= a < |CellsAt(tris, v, n)| :: 3 * CellsAt(tris, v, n)[a] < n
    ensures forall a, b | 0 <= a < b < |CellsAt(tris, v, n)| :: CellsAt(tris, v, n)[a] <= CellsAt(tris, v, n)[b]
  {
    if n > 0 {
      CellsAtAscending(tris, v, n - 1);
    }
  }

  /** With distinct corners no cell is listed twice for a vertex: the list is strictly ascending. */
  lemma {:induction false} CellsAtStrictlyAscending(tris: seq<nat>, v: nat, n: nat)
    requires n <= NumLocal(tris)
    requires DistinctCorners(tris)
    ensures forall a, b | 0 <= a < b < |CellsAt(tris, v, n)| :: CellsAt(tris, v, n)[a] < CellsAt(tris, v, n)[b]
  {
    if n > 0 {
      CellsAtStrictlyAscending(tris, v, n - 1);
      var c := (n - 1) / 3;
      if tris[n - 1] == v {
        CellsAtMembers(tris, v, n - 1);
        var r := CellsAt(tris, v, n - 1);
        assert n - 1 == 3 * c + (n - 1) % 3;
        assert tris[3 * c] != tris[3 * c + 1] && tris[3 * c + 1] != tris[3 * c + 2] && tris[3 * c + 2] != tris[3 * c];
        forall a | 0 <= a < |r| ensures r[a] < c {
          assert r[a] in r;
          var j :| 0 <= j < n - 1 && tris[j] == v && j / 3 == r[a];
          assert j == 3 * r[a] + j % 3;
        }
      }
    }
  }

  /** Scanning further only appends to a vertex's list. */
  lemma {:induction false} CellsAtPrefix(tris: seq<nat>, v: nat, i: nat, j: nat)
    requires i <= j <= NumLocal(tris)
    ensures CellsAt(tris, v, i) <= CellsAt(tris, v, j)
  {
    if i < j {
      CellsAtPrefix(tris, v, i, j - 1);
    }
  }

  /** No corner lies below vertex 0. */
  lemma {:induction false} CornersBelowZero(tris: seq<nat>, n: nat)
    requires n <= NumLocal(tris)
    ensures CornersBelow(tris, 0, n) == 0
  {
    if n > 0 {
      CornersBelowZero(tris, n - 1);
    }
  }

  /** Adding vertex `v`'s own corners to the corners below `v` gives the corners below `v + 1`. */
  lemma {:induction false} CornersBelowStep(tris: seq<nat>, v: nat, n: nat)
    requires n <= NumLocal(tris)
    ensures CornersBelow(tris, v + 1, n) == CornersBelow(tris, v, n) + |CellsAt(tris, v, n)|
  {
    if n > 0 {
      CornersBelowStep(tris, v, n - 1);
    }
  }

  lemma {:induction false} CornersBelowMonotone(tris: seq<nat>, v: nat, w: nat, n: nat)
    requires v <= w && n <= NumLocal(tris)
    ensures CornersBelow(tris, v, n) <= CornersBelow(tris, w, n)
  {
    if v < w {
      CornersBelowMonotone(tris, v, w - 1, n);
      CornersBelowStep(tris, w - 1, n);
    }
  }

  /** When every corner is a vertex below `bound`, all `n` corners lie below `bound`. */
  lemma {:induction false} CornersBelowAll(tris: seq<nat>, bound: nat, n: nat)
    requires n <= NumLocal(tris)
    requires forall i | 0 <= i < NumLocal(tris) :: tris[i] < bound
    ensures CornersBelow(tris, bound, n) == n
  {
    if n > 0 {
      CornersBelowAll(tris, bound, n - 1);
    }
  }

  // ---------------------------------------------------------------- Vertex -> Edge

  /** Each of the first `n` edges of `edges` once per endpoint equal to `v`, in id order. */
  function EdgesAt(edges: seq<Pair>, v: nat, n: nat): seq<nat>
    requires n <= |edges|
  {
    if n == 0 then []
    else EdgesAt(edges, v, n - 1)
         + (if edges[n - 1].0 == v then [n - 1] else [])
         + (if edges[n - 1].1 == v then [n - 1] else [])
  }

  /** How many endpoints of the first `n` edges are vertices below `v`. */
  function EndsBelow(edges: seq<Pair>, v: nat, n: nat): nat
    requires n <= |edges|
  {
    if n == 0 then 0
    else EndsBelow(edges, v, n - 1)
         + (if edges[n - 1].0 < v then 1 else 0)
         + (if edges[n - 1].1 < v then 1 else 0)
  }

  /** Edge `e` is listed for `v` exactly when `v` is one of its endpoints. */
  lemma {:induction false} EdgesAtMembers(edges: seq<Pair>, v: nat, n: nat)
    requires n <= |edges|
    ensures forall e: nat :: e in EdgesAt(edges, v, n) <==> e < n && (edges[e].0 == v || edges[e].1 == v)
  {
    if n > 0 {
      EdgesAtMembers(edges, v, n - 1);
    }
  }

  /** Edges are listed in non-decreasing id order, and every listed id is below `n`. */
  lemma {:induction false} EdgesAtAscending(edges: seq<Pair>, v: nat, n: nat)
    requires n <= |edges|
    ensures forall a | 0 <= a < |EdgesAt(edges, v, n)| :: EdgesAt(edges, v, n)[a] < n
    ensures forall a, b | 0 <= a < b < |EdgesAt(edges, v, n)| :: EdgesAt(edges, v, n)[a] <= EdgesAt(edges, v, n)[b]
  {
    if n > 0 {
      EdgesAtAscending(edges, v, n - 1);
    }
  }

  /** Without self-loop edges the list is strictly ascending: every incident edge once. */
  lemma {:induction false} EdgesAtStrictlyAscending(edges: seq<Pair>, v: nat, n: nat)
    requires n <= |edges|
    requires forall e | 0 <= e < |edges| :: edges[e].0 != edges[e].1
    ensures forall a, b | 0 <= a < b < |EdgesAt(edges, v, n)| :: EdgesAt(edges, v, n)[a] < EdgesAt(edges, v, n)[b]
  {
    if n > 0 {
      EdgesAtStrictlyAscending(edges, v, n - 1);
      EdgesAtAscending(edges, v, n - 1);
    }
  }

  /** Scanning further only appends to a vertex's list. */
  lemma {:induction false} EdgesAtPrefix(edges: seq<Pair>, v: nat, i: nat, j: nat)
    requires i <= j <= |edges|
    ensures EdgesAt(edges, v, i) <= EdgesAt(edges, v, j)
  {
    if i < j {
      EdgesAtPrefix(edges, v, i, j - 1);
    }
  }

  /** No endpoint lies below vertex 0. */
  lemma {:induction false} EndsBelowZero(edges: seq<Pair>, n: nat)
    requires n <= |edges|
    ensures EndsBelow(edges, 0, n) == 0
  {
    if n > 0 {
      EndsBelowZero(edges, n - 1);
    }
  }

  lemma {:induction false} EndsBelowStep(edges: seq<Pair>, v: nat, n: nat)
    requires n <= |edges|
    ensures EndsBelow(edges, v + 1, n) == EndsBelow(edges, v, n) + |EdgesAt(edges, v, n)|
  {
    if n > 0 {
      EndsBelowStep(edges, v, n - 1);
    }
  }

  lemma {:induction false} EndsBelowMonotone(edges: seq<Pair>, v: nat, w: nat, n: nat)
    requires v <= w && n <= |edges|
    ensures EndsBelow(edges, v, n) <= EndsBelow(edges, w, n)
  {
    if v < w {
      EndsBelowMonotone(edges, v, w - 1, n);
      EndsBelowStep(edges, w - 1, n);
    }
  }

  /** When every endpoint is below `bound`, the rows hold two entries per edge in all. */
  lemma {:induction false} EndsBelowAll(edges: seq<Pair>, bound: nat, n: nat)
    requires n <= |edges|
    requires forall e | 0 <= e < |edges| :: edges[e].0 < bound && edges[e].1 < bound
    ensures EndsBelow(edges, bound, n) == 2 * n
  {
    if n > 0 {
      EndsBelowAll(edges, bound, n - 1);
    }
  }

  // ---------------------------------------------------------------- Degrees on a closed mesh

  /** The corners among the first `n` that sit on `v`. */
  ghost function CornersOn(tris: seq<nat>, v: nat, n: nat): set<nat>
    requires n <= NumLocal(tris)
  {
    set i: nat | i < n && tris[i] == v
  }

  /** The edges among the first `n` that have `v` as an endpoint. */
  ghost function EdgesOn(edges: seq<Pair>, v: nat, n: nat): set<nat>
    requires n <= |edges|
  {
    set e: nat | e < n && (edges[e].0 == v || edges[e].1 == v)
  }

  /** Vertex `v`'s cell list has one entry per corner on `v`. */
  lemma {:induction false} CellsAtCountsCorners(tris: seq<nat>, v: nat, n: nat)
    requires n <= NumLocal(tris)
    ensures |CellsAt(tris, v, n)| == |CornersOn(tris, v, n)|
  {
    if n > 0 {
      CellsAtCountsCorners(tris, v, n - 1);
      if tris[n - 1] == v {
        assert CornersOn(tris, v, n) == CornersOn(tris, v, n - 1) + {n - 1};
      } else {
        assert CornersOn(tris, v, n) == CornersOn(tris, v, n - 1);
      }
    }
  }

  /** Without self-loop edges, vertex `v`'s edge list has one entry per incident edge. */
  lemma {:induction false} EdgesAtCountsEdges(edges: seq<Pair>, v: nat, n: nat)
    requires n <= |edges|
    requires forall e | 0 <= e < |edges| :: edges[e].0 != edges[e].1
    ensures |EdgesAt(edges, v, n)| == |EdgesOn(edges, v, n)|
  {
    if n > 0 {
      EdgesAtCountsEdges(edges, v, n - 1);
      if edges[n - 1].0 == v || edges[n - 1].1 == v {
        assert EdgesOn(edges, v, n) == EdgesOn(edges, v, n - 1) + {n - 1};
      } else {
        assert EdgesOn(edges, v, n) == EdgesOn(edges, v, n - 1);
      }
    }
  }

  /** On a closed manifold every numbered edge joins two different vertices. */
  lemma NoSelfLoops(tris: seq<nat>)
    requires ClosedManifold(tris)
    ensures forall e | 0 <= e < NumEdges(tris) :: EdgeList(tris)[e].0 < EdgeList(tris)[e].1
  {
    var n := NumLocal(tris);
    ScanWellNumbered(tris, n);
    ScanKeysSeen(tris, n);
    forall e | 0 <= e < NumEdges(tris) ensures EdgeList(tris)[e].0 < EdgeList(tris)[e].1 {
      assert EdgeList(tris)[e] in EdgeIds(tris);
      var i :| 0 <= i < n && Canon(Dir(tris, i)) == EdgeList(tris)[e];
    }
  }

  /** The edge id of local edge `i`. */
  ghost function LocalId(tris: seq<nat>, i: nat): nat
    requires i < NumLocal(tris)
  {
    LocalEdgeId(tris, i);
    EdgeIds(tris)[Canon(Dir(tris, i))]
  }

  /** A set of local edges that `LocalId` maps one-to-one onto a set of edge ids has as
      many members as that set. */
  lemma {:induction false} SameSizeByIds(tris: seq<nat>, s: set<nat>, t: set<nat>)
    requires forall i | i in s :: i < NumLocal(tris) && LocalId(tris, i) in t
    requires forall i, i' | i in s && i' in s && LocalId(tris, i) == LocalId(tris, i') :: i == i'
    requires forall e | e in t :: exists i :: i in s && LocalId(tris, i) == e
    ensures |s| == |t|
    decreases |s|
  {
    if s == {} {
      assert t == {};
    } else {
      var i :| i in s;
      var s', t' := s - {i}, t - {LocalId(tris, i)};
      forall e | e in t' ensures exists i' :: i' in s' && LocalId(tris, i') == e {
        var i' :| i' in s && LocalId(tris, i') == e;
        assert i' in s';
      }
      SameSizeByIds(tris, s', t');
    }
  }

  /** Each corner on `v` starts a local edge whose edge has `v` as an endpoint. */
  lemma CornerIdsAreEdgesOn(tris: seq<nat>, v: nat, i: nat)
    requires i in CornersOn(tris, v, NumLocal(tris))
    ensures i < NumLocal(tris) && LocalId(tris, i) in EdgesOn(EdgeList(tris), v, NumEdges(tris))
  {
    LocalEdgeId(tris, i);
    DirStart(tris, i);
  }

  /** On a closed manifold two local edges leaving the same vertex lie on different edges. */
  lemma CornerIdsInjective(tris: seq<nat>, v: nat, i: nat, i': nat)
    requires ClosedManifold(tris)
    requires i in CornersOn(tris, v, NumLocal(tris)) && i' in CornersOn(tris, v, NumLocal(tris))
    requires LocalId(tris, i) == LocalId(tris, i')
    ensures i == i'
  {
    SameIdIffSamePair(tris, i, i');
    DirStart(tris, i);
    DirStart(tris, i');
    assert Dir(tris, i) == Dir(tris, i');
  }

  /** On a closed manifold every edge at `v` is traversed by a local edge leaving `v`. */
  lemma EdgesOnHaveCorner(tris: seq<nat>, v: nat, e: nat)
    requires ClosedManifold(tris)
    requires e in EdgesOn(EdgeList(tris), v, NumEdges(tris))
    ensures exists i :: i in CornersOn(tris, v, NumLocal(tris)) && LocalId(tris, i) == e
  {
    var n, edges := NumLocal(tris), EdgeList(tris);
    ScanWellNumbered(tris, n);
    ScanKeysSeen(tris, n);
    assert edges[e] in EdgeIds(tris);
    var i0 :| 0 <= i0 < n && Canon(Dir(tris, i0)) == edges[e];
    LocalEdgeId(tris, i0);
    DirStart(tris, i0);
    if Dir(tris, i0).0 == v {
      assert i0 in CornersOn(tris, v, n) && LocalId(tris, i0) == e;
    } else {
      assert HasReverse(tris, i0);
      var i1 :| 0 <= i1 < n && Dir(tris, i1) == (Dir(tris, i0).1, Dir(tris, i0).0);
      LocalEdgeId(tris, i1);
      DirStart(tris, i1);
      assert i1 in CornersOn(tris, v, n) && LocalId(tris, i1) == e;
    }
  }

  /** The closed-fan property: on a closed manifold every vertex has as many incident
      edges as incident cells. Each corner on `v` starts exactly one local edge leaving `v`,
      and each edge at `v` is traversed exactly once in the direction leaving `v`. */
  lemma DegreesAgree(tris: seq<nat>, v: nat)
    requires ClosedManifold(tris)
    ensures |EdgesAt(EdgeList(tris), v, NumEdges(tris))| == |CellsAt(tris, v, NumLocal(tris))|
  {
    var n, edges := NumLocal(tris), EdgeList(tris);
    NoSelfLoops(tris);
    CellsAtCountsCorners(tris, v, n);
    EdgesAtCountsEdges(edges, v, |edges|);
    var s, t := CornersOn(tris, v, n), EdgesOn(edges, v, |edges|);
    forall i | i in s ensures i < n && LocalId(tris, i) in t {
      CornerIdsAreEdgesOn(tris, v, i);
    }
    forall i, i' | i in s && i' in s && LocalId(tris, i) == LocalId(tris, i') ensures i == i' {
      CornerIdsInjective(tris, v, i, i');
    }
    forall e | e in t ensures exists i :: i in s && LocalId(tris, i) == e {
      EdgesOnHaveCorner(tris, v, e);
    }
    SameSizeByIds(tris, s, t);
  }
}
