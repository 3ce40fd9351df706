/** The three builders that number edges from the raw triangle list: Cell->Edge,
    Edge->Cell and Edge->Vertex. Each runs its own copy of the numbering loop, and each
    copy is proved to compute `EdgeNumbering.ScanUpTo`, so all three agree on every id. */
module EdgeBuilders {
  import opened Csr
  import opened EdgeNumbering
  import opened CellIncidence

  /** One cell of the numbering pass: each of the cell's three local edges whose canonical
      pair has no id yet takes the counter's value, and the counter advances. */
  method NumberCellEdges(tris: seq<nat>, c: nat, edgeMap0: map<Pair, nat>, nextEdge0: nat)
    returns (edgeMap: map<Pair, nat>, nextEdge: nat)
    requires c < NumCells(tris)
    requires edgeMap0 == ScanUpTo(tris, 3 * c).ids && nextEdge0 == |ScanUpTo(tris, 3 * c).order|
    ensures edgeMap == ScanUpTo(tris, 3 * c + 3).ids && nextEdge == |ScanUpTo(tris, 3 * c + 3).order|
  {
    edgeMap, nextEdge := edgeMap0, nextEdge0;
    var base := 3 * c;
    for k := 0 to 3
      invariant edgeMap == ScanUpTo(tris, base + k).ids
      invariant nextEdge == |ScanUpTo(tris, base + k).order|
    {
      DirOfCell(tris, c, k);
      var v0, v1 := tris[base + k], tris[base + (k + 1) % 3];
      var canonical := Canon((v0, v1));
      NumberingStep(tris, base + k, edgeMap, nextEdge, canonical);
      if canonical !in edgeMap {
        edgeMap := edgeMap[canonical := nextEdge];
        nextEdge := nextEdge + 1;
      }
    }
  }

  /** The numbering pass that Cell->Edge and Edge->Vertex each run, in identical copies:
      a map from canonical pair to id, filled by a counter on first sight. */
  method NumberEdges(tris: seq<nat>) returns (edgeMap: map<Pair, nat>)
    ensures edgeMap == EdgeIds(tris)
    ensures |edgeMap| == NumEdges(tris)
  {
    var numCells := |tris| / 3;
    edgeMap := map[];
    var nextEdge: nat := 0;
    for c := 0 to numCells
      invariant edgeMap == ScanUpTo(tris, 3 * c).ids
      invariant nextEdge == |ScanUpTo(tris, 3 * c).order|
    {
      edgeMap, nextEdge := NumberCellEdges(tris, c, edgeMap, nextEdge);
    }
    EdgeIdsCount(tris);
  }

  /** What Cell->Edge holds: three rows per cell, entry `3c + k` the id of local edge `k` of `c`. */
  ghost predicate BuiltCellEdge(tris: seq<nat>, adj: Adjacency<CellEdgeTag>)
  {
    && Valid(adj) && Len(adj) == NumCells(tris)
    && (forall c | 0 <= c <= NumCells(tris) :: adj.offsets[c] == 3 * c)
    && |adj.indices| == NumLocal(tris)
    && forall j | 0 <= j < NumLocal(tris) ::
      Canon(Dir(tris, j)) in EdgeIds(tris) && adj.indices[j] == EdgeIds(tris)[Canon(Dir(tris, j))]
  }

  /** What Edge->Cell holds: two entries per edge, the slot rule's two cells. */
  ghost predicate BuiltEdgeCell(tris: seq<nat>, adj: Adjacency<EdgeCellTag>)
  {
    && Valid(adj) && Len(adj) == NumEdges(tris)
    && (forall e | 0 <= e <= NumEdges(tris) :: adj.offsets[e] == 2 * e)
    && |adj.indices| == 2 * NumEdges(tris)
    && forall e | 0 <= e < NumEdges(tris) ::
      && adj.indices[2 * e] == LastSlot(tris, NumLocal(tris), EdgeList(tris)[e], true)
      && adj.indices[2 * e + 1] == LastSlot(tris, NumLocal(tris), EdgeList(tris)[e], false)
  }

  /** What Edge->Vertex holds: two entries per edge, its lower and its higher vertex. */
  ghost predicate BuiltEdgeVertex(tris: seq<nat>, adj: Adjacency<EdgeVertexTag>)
  {
    && Valid(adj) && Len(adj) == NumEdges(tris)
    && (forall e | 0 <= e <= NumEdges(tris) :: adj.offsets[e] == 2 * e)
    && |adj.indices| == 2 * NumEdges(tris)
    && forall e | 0 <= e < NumEdges(tris) ::
      adj.indices[2 * e] == EdgeList(tris)[e].0 && adj.indices[2 * e + 1] == EdgeList(tris)[e].1
  }

  /** Cell->Edge: row `c` holds the ids of the cell's three local edges, in local order. */
  method BuildCellEdge(tris: seq<nat>) returns (adj: Adjacency<CellEdgeTag>)
    ensures Valid(adj) && Len(adj) == NumCells(tris)
    ensures forall c | 0 <= c <= NumCells(tris) :: adj.offsets[c] == 3 * c
    ensures |adj.indices| == NumLocal(tris)
    ensures forall j | 0 <= j < NumLocal(tris) ::
      Canon(Dir(tris, j)) in EdgeIds(tris) && adj.indices[j] == EdgeIds(tris)[Canon(Dir(tris, j))]
  {
    var numCells := |tris| / 3;
    var edgeMap := NumberEdges(tris);
    ScanCovers(tris, NumLocal(tris));

    var offsets: seq<nat> := [];
    var indices: seq<nat> := [];
    for c := 0 to numCells
      invariant |offsets| == c && |indices| == 3 * c
      invariant forall c' | 0 <= c' < c :: offsets[c'] == 3 * c'
      invariant forall j | 0 <= j < 3 * c :: indices[j] == edgeMap[Canon(Dir(tris, j))]
    {
      offsets := offsets + [|indices|];
      for k := 0 to 3
        invariant |indices| == 3 * c + k
        invariant forall j | 0 <= j < 3 * c + k :: indices[j] == edgeMap[Canon(Dir(tris, j))]
      {
        DirOfCell(tris, c, k);
        var v0, v1 := tris[3 * c + k], tris[3 * c + (k + 1) % 3];
        var canonical := Canon((v0, v1));
        indices := indices + [edgeMap[canonical]];
      }
    }
    offsets := offsets + [|indices|];
    adj := Adjacency(offsets, indices);
  }

  /** One local edge of Edge->Cell's numbering pass: the canonical pair gets its entry on
      first sight (next id, both slots 0), then the cell is written into the slot of the
      edge's direction. */
  method RecordLocalEdge(tris: seq<nat>, c: nat, k: nat, edgeMap0: map<Pair, SlotEntry>, nextEdge0: nat)
    returns (edgeMap: map<Pair, SlotEntry>, nextEdge: nat)
    requires c < NumCells(tris) && k < 3
    requires edgeMap0 == SlotScan(tris, 3 * c + k) && nextEdge0 == |ScanUpTo(tris, 3 * c + k).order|
    ensures edgeMap == SlotScan(tris, 3 * c + k + 1) && nextEdge == |ScanUpTo(tris, 3 * c + k + 1).order|
  {
    DirOfCell(tris, c, k);
    SlotScanStep(tris, 3 * c + k);
    var v0, v1 := tris[3 * c + k], tris[3 * c + (k + 1) % 3];
    var canonical := Canon((v0, v1));
    var isPrimary := v0 < v1;
    var entry;
    nextEdge := nextEdge0;
    if canonical in edgeMap0 {
      entry := edgeMap0[canonical];
    } else {
      entry := SlotEntry(nextEdge, 0, 0);
      nextEdge := nextEdge + 1;
    }
    entry := Record(entry, isPrimary, c);
    edgeMap := edgeMap0[canonical := entry];
  }

  /** One cell of Edge->Cell's numbering pass: its three local edges in order. */
  method RecordCellEdges(tris: seq<nat>, c: nat, edgeMap0: map<Pair, SlotEntry>, nextEdge0: nat)
    returns (edgeMap: map<Pair, SlotEntry>, nextEdge: nat)
    requires c < NumCells(tris)
    requires edgeMap0 == SlotScan(tris, 3 * c) && nextEdge0 == |ScanUpTo(tris, 3 * c).order|
    ensures edgeMap == SlotScan(tris, 3 * c + 3) && nextEdge == |ScanUpTo(tris, 3 * c + 3).order|
  {
    CellInRange(tris, c);
    edgeMap, nextEdge := edgeMap0, nextEdge0;
    for k := 0 to 3
      invariant edgeMap == SlotScan(tris, 3 * c + k)
      invariant nextEdge == |ScanUpTo(tris, 3 * c + k).order|
    {
      edgeMap, nextEdge := RecordLocalEdge(tris, c, k, edgeMap, nextEdge);
    }
  }

  /** Edge->Cell's own copy of the numbering pass: besides the id, each map entry records
      the cell of the latest traversal in each direction. */
  method NumberEdgesWithSlots(tris: seq<nat>) returns (edgeMap: map<Pair, SlotEntry>)
    ensures edgeMap.Keys == EdgeIds(tris).Keys
    ensures forall p | p in edgeMap ::
      edgeMap[p] == SlotEntry(EdgeIds(tris)[p], LastSlot(tris, NumLocal(tris), p, true), LastSlot(tris, NumLocal(tris), p, false))
    ensures |edgeMap| == NumEdges(tris)
  {
    var numCells := |tris| / 3;
    edgeMap := map[];
    var nextEdge: nat := 0;
    for c := 0 to numCells
      invariant edgeMap == SlotScan(tris, 3 * c)
      invariant nextEdge == |ScanUpTo(tris, 3 * c).order|
    {
      edgeMap, nextEdge := RecordCellEdges(tris, c, edgeMap, nextEdge);
    }
    SlotScanEntries(tris, NumLocal(tris));
    EdgeIdsCount(tris);
    assert |edgeMap.Keys| == |EdgeIds(tris).Keys|;
  }

  /** The offsets of a relation with exactly two entries per row: 0, 2, 4, ..., 2n. */
  method PairOffsets(n: nat) returns (offsets: seq<nat>)
    ensures |offsets| == n + 1
    ensures forall e | 0 <= e <= n :: offsets[e] == 2 * e
  {
    offsets := [];
    for i := 0 to n + 1
      invariant |offsets| == i
      invariant forall e | 0 <= e < i :: offsets[e] == 2 * e
    {
      offsets := offsets + [2 * i];
    }
  }

  /** The write pass's progress: row `e` of the output holds `rows(e)` once edge `e`'s
      pair has been visited, and the initial zeros while it is still `remaining`. */
  ghost predicate Written(indices: seq<nat>, order: seq<Pair>, remaining: set<Pair>, row: nat -> (nat, nat))
  {
    && |indices| == 2 * |order|
    && forall e | 0 <= e < |order| ::
      && indices[2 * e] == (if order[e] in remaining then 0 else row(e).0)
      && indices[2 * e + 1] == (if order[e] in remaining then 0 else row(e).1)
  }

  /** `indices[2e] = a; indices[2e + 1] = b`: row `e` of a two-per-row vector overwritten. */
  function WriteRow(indices: seq<nat>, e: nat, a: nat, b: nat): (r: seq<nat>)
    requires 2 * e + 1 < |indices|
    ensures |r| == |indices| && r[2 * e] == a && r[2 * e + 1] == b
    ensures forall i | 0 <= i < |r| && i != 2 * e && i != 2 * e + 1 :: r[i] == indices[i]
  {
    indices[2 * e := a][2 * e + 1 := b]
  }

  /** Visiting pair `p` (with id `ids[p]`) writes row `ids[p]` and leaves every other row. */
  lemma WrittenStep(indices: seq<nat>, ids: map<Pair, nat>, order: seq<Pair>, remaining: set<Pair>,
                    row: nat -> (nat, nat), p: Pair)
    requires WellNumbered(Numbering(ids, order))
    requires Written(indices, order, remaining, row)
    requires p in remaining && p in ids
    ensures var e := ids[p];
      Written(WriteRow(indices, e, row(e).0, row(e).1), order, remaining - {p}, row)
  {
    var e := ids[p];
    var updated := WriteRow(indices, e, row(e).0, row(e).1);
    forall e' | 0 <= e' < |order|
      ensures updated[2 * e'] == (if order[e'] in remaining - {p} then 0 else row(e').0)
      ensures updated[2 * e' + 1] == (if order[e'] in remaining - {p} then 0 else row(e').1)
    {
      if e' != e {
        assert order[e'] != p;
      }
    }
  }

  /** Edge->Cell's write pass: every map entry, visited in arbitrary (hash) order, writes
      its two slots into row `id` of a zero-filled vector. */
  method ScatterSlots(edgeMap: map<Pair, SlotEntry>, ghost ids: map<Pair, nat>, ghost order: seq<Pair>)
    returns (indices: seq<nat>)
    requires WellNumbered(Numbering(ids, order))
    requires edgeMap.Keys == ids.Keys && |edgeMap| == |order|
    requires forall p | p in edgeMap :: edgeMap[p].id == ids[p]
    ensures |indices| == 2 * |order|
    ensures forall e | 0 <= e < |order| ::
      indices[2 * e] == edgeMap[order[e]].slot0 && indices[2 * e + 1] == edgeMap[order[e]].slot1
  {
    ghost var row := (e: nat) => if e < |order| && order[e] in edgeMap then (edgeMap[order[e]].slot0, edgeMap[order[e]].slot1) else (0, 0);
    var numEdges := |edgeMap|;
    indices := seq(2 * numEdges, _ => 0);
    var remaining := edgeMap.Keys;
    while remaining != {}
      invariant remaining <= edgeMap.Keys
      invariant Written(indices, order, remaining, row)
      decreases remaining
    {
      var p :| p in remaining;
      var entry := edgeMap[p];
      WrittenStep(indices, ids, order, remaining, row, p);
      indices := WriteRow(indices, entry.id, entry.slot0, entry.slot1);
      remaining := remaining - {p};
    }
    forall e | 0 <= e < |order|
      ensures indices[2 * e] == edgeMap[order[e]].slot0 && indices[2 * e + 1] == edgeMap[order[e]].slot1
    {
      assert order[e] in ids && order[e] !in remaining;
    }
  }

  /** Edge->Vertex's write pass: every (pair, id) entry, visited in arbitrary (hash) order,
      writes the pair's lower and higher vertex into row `id` of a zero-filled vector. */
  method ScatterEndpoints(edgeSet: map<Pair, nat>, ghost order: seq<Pair>) returns (indices: seq<nat>)
    requires WellNumbered(Numbering(edgeSet, order))
    ensures |indices| == 2 * |order|
    ensures forall e | 0 <= e < |order| :: indices[2 * e] == order[e].0 && indices[2 * e + 1] == order[e].1
  {
    ghost var row := (e: nat) => if e < |order| then order[e] else (0, 0);
    var numEdges := |edgeSet|;
    indices := seq(2 * numEdges, _ => 0);
    var remaining := edgeSet.Keys;
    while remaining != {}
      invariant remaining <= edgeSet.Keys
      invariant Written(indices, order, remaining, row)
      decreases remaining
    {
      var p :| p in remaining;
      var edgeIdx := edgeSet[p];
      WrittenStep(indices, edgeSet, order, remaining, row, p);
      indices := WriteRow(indices, edgeIdx, p.0, p.1);
      remaining := remaining - {p};
    }
  }

  /** Edge->Cell: row `e` holds slot 0 (the last cell traversing the edge lower->higher)
      and slot 1 (the last cell traversing it otherwise); a slot never written is 0. */
  method BuildEdgeCell(tris: seq<nat>) returns (adj: Adjacency<EdgeCellTag>)
    ensures Valid(adj) && Len(adj) == NumEdges(tris)
    ensures forall e | 0 <= e <= NumEdges(tris) :: adj.offsets[e] == 2 * e
    ensures |adj.indices| == 2 * NumEdges(tris)
    ensures forall e | 0 <= e < NumEdges(tris) ::
      && adj.indices[2 * e] == LastSlot(tris, NumLocal(tris), EdgeList(tris)[e], true)
      && adj.indices[2 * e + 1] == LastSlot(tris, NumLocal(tris), EdgeList(tris)[e], false)
  {
    var edgeMap := NumberEdgesWithSlots(tris);
    var numEdges := |edgeMap|;
    ScanWellNumbered(tris, NumLocal(tris));
    var indices := ScatterSlots(edgeMap, EdgeIds(tris), EdgeList(tris));
    var offsets := PairOffsets(numEdges);
    adj := Adjacency(offsets, indices);
  }

  /** Edge->Vertex: row `e` holds the canonical (lower, higher) vertex pair of edge `e`. */
  method BuildEdgeVertex(tris: seq<nat>) returns (adj: Adjacency<EdgeVertexTag>)
    ensures Valid(adj) && Len(adj) == NumEdges(tris)
    ensures forall e | 0 <= e <= NumEdges(tris) :: adj.offsets[e] == 2 * e
    ensures |adj.indices| == 2 * NumEdges(tris)
    ensures forall e | 0 <= e < NumEdges(tris) ::
      adj.indices[2 * e] == EdgeList(tris)[e].0 && adj.indices[2 * e + 1] == EdgeList(tris)[e].1
  {
    var edgeSet := NumberEdges(tris);
    var numEdges := |edgeSet|;
    ScanWellNumbered(tris, NumLocal(tris));
    var indices := ScatterEndpoints(edgeSet, EdgeList(tris));
    var offsets := PairOffsets(numEdges);
    adj := Adjacency(offsets, indices);
  }
}
