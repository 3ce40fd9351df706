/** The edge numbering shared by every relation builder: cells are scanned in id order,
    each cell's local edges (v0,v1), (v1,v2), (v2,v0) in turn, and the first time a
    canonical (min,max) vertex pair is seen it receives the next edge id. */
module EdgeNumbering {

  type Pair = (nat, nat)

  /** Number of cells in a flat triangle list (integer division, as the builders do). */
  function NumCells(tris: seq<nat>): nat
  {
    |tris| / 3
  }

  /** Number of local (directed) edges the builders visit: three per cell. */
  function NumLocal(tris: seq<nat>): nat
  {
    3 * NumCells(tris)
  }

  /** The three corners of cell `c` lie in the part of the list the builders scan. */
  lemma CellInRange(tris: seq<nat>, c: nat)
    requires c < NumCells(tris)
    ensures 3 * c + 2 < NumLocal(tris) <= |tris|
  {
  }

  /** Corner `k` of cell `c` is entry `3c + k` of the list, and belongs to cell `c`. */
  lemma CornerIndex(tris: seq<nat>, c: nat, k: nat)
    requires c < NumCells(tris) && k < 3
    ensures 3 * c + k < NumLocal(tris) <= |tris| && (3 * c + k) / 3 == c
  {
  }

  /** Canonical form of a vertex pair: the same two vertices, smaller one first. */
  function Canon(p: Pair): (q: Pair)
    ensures q.0 <= q.1
    ensures q == p || q == (p.1, p.0)
  {
    if p.0 <= p.1 then p else (p.1, p.0)
  }

  /** Local edge `k` of cell `c`, directed by the cell's winding. */
  function LocalEdge(tris: seq<nat>, c: nat, k: nat): Pair
    requires c < NumCells(tris) && k < 3
  {
    (tris[3 * c + k], tris[3 * c + (k + 1) % 3])
  }

  /** Every local edge in scan order: cell by cell, local edges 0, 1, 2 of each. */
  function Dirs(tris: seq<nat>): (d: seq<Pair>)
    ensures |d| == NumLocal(tris)
    decreases |tris|
  {
    if |tris| < 3 then []
    else [(tris[0], tris[1]), (tris[1], tris[2]), (tris[2], tris[0])] + Dirs(tris[3..])
  }

  /** The `j`-th local edge in scan order. */
  function Dir(tris: seq<nat>, j: nat): Pair
    requires j < NumLocal(tris)
  {
    Dirs(tris)[j]
  }

  /** Local edge `k` of cell `c` is local edge `3c + k` of the scan. */
  lemma {:induction false} DirOfCell(tris: seq<nat>, c: nat, k: nat)
    requires c < NumCells(tris) && k < 3
    ensures 3 * c + k < NumLocal(tris) && (3 * c + k) / 3 == c
    ensures Dir(tris, 3 * c + k) == LocalEdge(tris, c, k)
    decreases c
  {
    if c > 0 {
      DirOfCell(tris[3..], c - 1, k);
      assert Dirs(tris)[3 * c + k] == Dirs(tris[3..])[3 * (c - 1) + k];
    }
  }

  /** Local edge `j` of the scan is local edge `j % 3` of cell `j / 3`. */
  lemma DirOfIndex(tris: seq<nat>, j: nat)
    requires j < NumLocal(tris)
    ensures j / 3 < NumCells(tris) && Dir(tris, j) == LocalEdge(tris, j / 3, j % 3)
  {
    DirOfCell(tris, j / 3, j % 3);
  }

  /** Local edge `j` of the scan starts at corner `j`. */
  lemma DirStart(tris: seq<nat>, j: nat)
    requires j < NumLocal(tris)
    ensures Dir(tris, j).0 == tris[j]
  {
    DirOfIndex(tris, j);
    assert 3 * (j / 3) + j % 3 == j;
  }

  /** The state of the numbering after some prefix of the scan: the id of every canonical
      pair seen so far, and the pairs themselves in the order they were first seen. The
      builders' counter `next_edge_idx` is always `|order|`. */
  datatype Numbering = Numbering(ids: map<Pair, nat>, order: seq<Pair>)

  /** The numbering after the first `j` local edges have been scanned. */
  function ScanUpTo(tris: seq<nat>, j: nat): Numbering
    requires j <= NumLocal(tris)
    decreases j
  {
    if j == 0 then Numbering(map[], [])
    else
      var n := ScanUpTo(tris, j - 1);
      var q := Canon(Dir(tris, j - 1));
      if q in n.ids then n else Numbering(n.ids[q := |n.order|], n.order + [q])
  }

  /** One step of the numbering, spelled out for the loops that build it. */
  lemma ScanStep(tris: seq<nat>, j: nat)
    requires j < NumLocal(tris)
    ensures var n := ScanUpTo(tris, j);
      var q := Canon(Dir(tris, j));
      ScanUpTo(tris, j + 1) == if q in n.ids then n else Numbering(n.ids[q := |n.order|], n.order + [q])
  {
  }

  /** One step of the numbering as the builders' loops take it: a map and a counter that
      are the numbering after `j` local edges become the numbering after `j + 1`. */
  lemma NumberingStep(tris: seq<nat>, j: nat, m: map<Pair, nat>, next: nat, p: Pair)
    requires j < NumLocal(tris)
    requires m == ScanUpTo(tris, j).ids && next == |ScanUpTo(tris, j).order|
    requires p == Canon(Dir(tris, j))
    ensures p in m ==> m == ScanUpTo(tris, j + 1).ids && next == |ScanUpTo(tris, j + 1).order|
    ensures p !in m ==> m[p := next] == ScanUpTo(tris, j + 1).ids && next + 1 == |ScanUpTo(tris, j + 1).order|
  {
    ScanStep(tris, j);
  }

  /** The edge id of every canonical pair of the mesh. */
  function EdgeIds(tris: seq<nat>): map<Pair, nat>
  {
    ScanUpTo(tris, NumLocal(tris)).ids
  }

  /** The canonical pair of every edge id, in id order. */
  function EdgeList(tris: seq<nat>): seq<Pair>
  {
    ScanUpTo(tris, NumLocal(tris)).order
  }

  /** The number of edges E. */
  function NumEdges(tris: seq<nat>): nat
  {
    |EdgeList(tris)|
  }

  /** `ids` and `order` are inverse bijections between the seen pairs and `[0, |order|)`,
      and every stored pair is canonical. */
  ghost predicate WellNumbered(n: Numbering)
  {
    && |n.ids| == |n.order|
    && (forall e | 0 <= e < |n.order| :: n.order[e] in n.ids && n.ids[n.order[e]] == e)
    && (forall p | p in n.ids :: n.ids[p] < |n.order| && n.order[n.ids[p]] == p)
    && (forall e | 0 <= e < |n.order| :: n.order[e].0 <= n.order[e].1)
  }

  /** Giving a new canonical pair the next id keeps the numbering well formed. */
  lemma WellNumberedStep(n: Numbering, q: Pair)
    requires WellNumbered(n) && q !in n.ids && q.0 <= q.1
    ensures WellNumbered(Numbering(n.ids[q := |n.order|], n.order + [q]))
  {
    var ids, order := n.ids[q := |n.order|], n.order + [q];
    assert |ids| == |n.ids| + 1;
    forall e | 0 <= e < |order| ensures order[e] in ids && ids[order[e]] == e && order[e].0 <= order[e].1 {
      if e < |n.order| {
        var p := n.order[e];
        assert p in n.ids && n.ids[p] == e;
        assert order[e] == p != q;
      }
    }
    forall p | p in ids ensures ids[p] < |order| && order[ids[p]] == p {
      if p != q {
        assert p in n.ids && n.ids[p] < |n.order| && n.order[n.ids[p]] == p;
      }
    }
  }

  lemma {:induction false} ScanWellNumbered(tris: seq<nat>, j: nat)
    requires j <= NumLocal(tris)
    ensures WellNumbered(ScanUpTo(tris, j))
  {
    if j > 0 {
      ScanWellNumbered(tris, j - 1);
      var n := ScanUpTo(tris, j - 1);
      var q := Canon(Dir(tris, j - 1));
      if q !in n.ids {
        WellNumberedStep(n, q);
      }
    }
  }

  /** One id per edge: the map has exactly E entries. */
  lemma EdgeIdsCount(tris: seq<nat>)
    ensures |EdgeIds(tris)| == NumEdges(tris)
  {
    ScanWellNumbered(tris, NumLocal(tris));
  }

  /** Every local edge scanned so far has an id. */
  lemma {:induction false} ScanCovers(tris: seq<nat>, j: nat)
    requires j <= NumLocal(tris)
    ensures forall i | 0 <= i < j :: Canon(Dir(tris, i)) in ScanUpTo(tris, j).ids
  {
    if j > 0 {
      ScanCovers(tris, j - 1);
    }
  }

  /** Only local edges scanned so far have an id: together with `ScanCovers`, the pairs
      numbered after `j` steps are exactly the canonical forms of the first `j` local edges. */
  lemma {:induction false} ScanKeysSeen(tris: seq<nat>, j: nat)
    requires j <= NumLocal(tris)
    ensures forall p | p in ScanUpTo(tris, j).ids :: exists i :: 0 <= i < j && Canon(Dir(tris, i)) == p
  {
    if j > 0 {
      ScanKeysSeen(tris, j - 1);
      var n := ScanUpTo(tris, j - 1);
      forall p | p in ScanUpTo(tris, j).ids
        ensures exists i :: 0 <= i < j && Canon(Dir(tris, i)) == p
      {
        if p !in n.ids {
          assert Canon(Dir(tris, j - 1)) == p;
        }
      }
    }
  }

  /** Scanning further only extends the numbering: earlier ids never change and the
      first-seen order only grows at its end. */
  lemma {:induction false} ScanExtends(tris: seq<nat>, i: nat, j: nat)
    requires i <= j <= NumLocal(tris)
    ensures ScanUpTo(tris, i).ids.Keys <= ScanUpTo(tris, j).ids.Keys
    ensures forall p | p in ScanUpTo(tris, i).ids :: ScanUpTo(tris, j).ids[p] == ScanUpTo(tris, i).ids[p]
    ensures ScanUpTo(tris, i).order <= ScanUpTo(tris, j).order
  {
    if i < j {
      ScanExtends(tris, i, j - 1);
    }
  }

  /** A local edge whose canonical pair is new when it is reached gets, as its final id,
      the number of edges numbered before it. */
  lemma {:induction false} FirstSightId(tris: seq<nat>, i: nat)
    requires i < NumLocal(tris)
    requires Canon(Dir(tris, i)) !in ScanUpTo(tris, i).ids
    ensures Canon(Dir(tris, i)) in EdgeIds(tris)
    ensures EdgeIds(tris)[Canon(Dir(tris, i))] == |ScanUpTo(tris, i).order|
  {
    ScanExtends(tris, i + 1, NumLocal(tris));
  }

  /** Ids follow first-seen order: of two pairs first seen at local edges `i < i'`, the
      one seen first has the smaller id. */
  lemma {:induction false} FirstSeenOrder(tris: seq<nat>, i: nat, i': nat)
    requires i < i' < NumLocal(tris)
    requires Canon(Dir(tris, i)) !in ScanUpTo(tris, i).ids
    requires Canon(Dir(tris, i')) !in ScanUpTo(tris, i').ids
    ensures Canon(Dir(tris, i)) in EdgeIds(tris) && Canon(Dir(tris, i')) in EdgeIds(tris)
    ensures EdgeIds(tris)[Canon(Dir(tris, i))] < EdgeIds(tris)[Canon(Dir(tris, i'))]
  {
    FirstSightId(tris, i);
    FirstSightId(tris, i');
    ScanExtends(tris, i + 1, i');
  }

  /** Every local edge has an id, and two local edges get the same id exactly when their
      canonical pairs are equal. */
  lemma SameIdIffSamePair(tris: seq<nat>, i: nat, i': nat)
    requires i < NumLocal(tris) && i' < NumLocal(tris)
    ensures Canon(Dir(tris, i)) in EdgeIds(tris) && Canon(Dir(tris, i')) in EdgeIds(tris)
    ensures EdgeIds(tris)[Canon(Dir(tris, i))] == EdgeIds(tris)[Canon(Dir(tris, i'))]
            <==> Canon(Dir(tris, i)) == Canon(Dir(tris, i'))
  {
    ScanCovers(tris, NumLocal(tris));
    ScanWellNumbered(tris, NumLocal(tris));
  }

  /** The ids handed out are exactly 0 .. E-1. */
  lemma IdsAreDense(tris: seq<nat>)
    ensures forall e :: e in EdgeIds(tris).Values <==> 0 <= e < NumEdges(tris)
  {
    var n := ScanUpTo(tris, NumLocal(tris));
    ScanWellNumbered(tris, NumLocal(tris));
    forall e | 0 <= e < NumEdges(tris) ensures e in n.ids.Values {
      assert n.order[e] in n.ids;
    }
  }

  /** Every local edge's id is below E, and the pair listed under that id is the local
      edge's canonical pair. */
  lemma LocalEdgeId(tris: seq<nat>, i: nat)
    requires i < NumLocal(tris)
    ensures Canon(Dir(tris, i)) in EdgeIds(tris)
    ensures EdgeIds(tris)[Canon(Dir(tris, i))] < NumEdges(tris)
    ensures EdgeList(tris)[EdgeIds(tris)[Canon(Dir(tris, i))]] == Canon(Dir(tris, i))
  {
    ScanCovers(tris, NumLocal(tris));
    ScanWellNumbered(tris, NumLocal(tris));
  }

  /** Every listed edge is the canonical pair of some local edge, so its endpoints are
      vertices of the triangle list. */
  lemma {:induction false} ListedEdgesFromTris(tris: seq<nat>, j: nat, bound: nat)
    requires j <= NumLocal(tris)
    requires forall i | 0 <= i < NumLocal(tris) :: tris[i] < bound
    ensures forall e | 0 <= e < |ScanUpTo(tris, j).order| ::
      ScanUpTo(tris, j).order[e].0 < bound && ScanUpTo(tris, j).order[e].1 < bound
  {
    if j > 0 {
      ListedEdgesFromTris(tris, j - 1, bound);
      DirOfIndex(tris, j - 1);
      var c, k := (j - 1) / 3, (j - 1) % 3;
      assert 3 * c + (k + 1) % 3 < |tris|;
    }
  }
}
