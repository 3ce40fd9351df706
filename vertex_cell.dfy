/** Vertex->Cell: a counting sort of the corners by vertex. Count the corners of each
    vertex, turn the counts into offsets by a running sum, then place every cell at its
    vertex's write cursor and advance the cursor. */
module VertexCell {
  import opened Csr
  import opened EdgeNumbering
  import opened VertexIncidence

  /** `s[i] += 1` on a vector of counters. */
  function Increment(s: seq<nat>, i: nat): (r: seq<nat>)
    requires i < |s|
    ensures |r| == |s| && r[i] == s[i] + 1
    ensures forall i' | 0 <= i' < |s| && i' != i :: r[i'] == s[i']
  {
    s[i := s[i] + 1]
  }

  /** `s[i] = x` on a vector of cell ids. */
  function Store(s: seq<nat>, i: nat, x: nat): (r: seq<nat>)
    requires i < |s|
    ensures |r| == |s| && r[i] == x
    ensures forall i' | 0 <= i' < |s| && i' != i :: r[i'] == s[i']
  {
    s[i := x]
  }

  /** After the first `j` corners, `counts[v]` is the number of them on vertex `v`. */
  ghost predicate Counted(tris: seq<nat>, counts: seq<nat>, j: nat)
    requires j <= NumLocal(tris)
  {
    forall v | 0 <= v < |counts| :: counts[v] == |CellsAt(tris, v, j)|
  }

  lemma CountedStep(tris: seq<nat>, counts: seq<nat>, j: nat)
    requires j < NumLocal(tris) && tris[j] < |counts|
    requires Counted(tris, counts, j)
    ensures Counted(tris, Increment(counts, tris[j]), j + 1)
  {
  }

  /** Counting the three corners of cell `c` extends the count by one cell. */
  lemma CountedCell(tris: seq<nat>, counts: seq<nat>, c: nat)
    requires c < NumCells(tris) && CornersInRange(tris, |counts|)
    requires Counted(tris, counts, 3 * c)
    ensures 3 * c + 2 < |tris|
    ensures var base := 3 * c;
      Counted(tris, Increment(Increment(Increment(counts, tris[base]), tris[base + 1]), tris[base + 2]), base + 3)
  {
    var base := 3 * c;
    CellInRange(tris, c);
    CountedStep(tris, counts, base);
    var once := Increment(counts, tris[base]);
    CountedStep(tris, once, base + 1);
    var twice := Increment(once, tris[base + 1]);
    CountedStep(tris, twice, base + 2);
  }

  /** The counting pass: `counts[v]` ends as the number of corners on `v`. */
  method CountCorners(tris: seq<nat>, numVertices: nat) returns (counts: seq<nat>)
    requires CornersInRange(tris, numVertices)
    ensures |counts| == numVertices
    ensures forall v | 0 <= v < numVertices :: counts[v] == |CellsAt(tris, v, NumLocal(tris))|
  {
    counts := seq(numVertices, _ => 0);
    for c := 0 to NumCells(tris)
      invariant |counts| == numVertices
      invariant Counted(tris, counts, 3 * c)
    {
      var base := 3 * c;
      CountedCell(tris, counts, c);
      counts := Increment(counts, tris[base]);
      counts := Increment(counts, tris[base + 1]);
      counts := Increment(counts, tris[base + 2]);
    }
  }

  /** The running-sum pass: offset `v` is the number of corners on vertices below `v`, and
      the last offset is the total. */
  method RunningOffsets(tris: seq<nat>, counts: seq<nat>) returns (offsets: seq<nat>)
    requires forall v | 0 <= v < |counts| :: counts[v] == |CellsAt(tris, v, NumLocal(tris))|
    ensures |offsets| == |counts| + 1
    ensures forall v | 0 <= v <= |counts| :: offsets[v] == CornersBelow(tris, v, NumLocal(tris))
  {
    var n := NumLocal(tris);
    offsets := [];
    var running: nat := 0;
    CornersBelowZero(tris, n);
    for v := 0 to |counts|
      invariant |offsets| == v && running == CornersBelow(tris, v, n)
      invariant forall v' | 0 <= v' < v :: offsets[v'] == CornersBelow(tris, v', n)
    {
      offsets := offsets + [running];
      CornersBelowStep(tris, v, n);
      running := running + counts[v];
    }
    offsets := offsets + [running];
  }

  /** The slots of `indices` from `start` on hold `row`. */
  ghost predicate Holds(indices: seq<nat>, start: nat, row: seq<nat>)
  {
    forall a | 0 <= a < |row| :: start + a < |indices| && indices[start + a] == row[a]
  }

  /** Vertex `v`'s row after the first `j` corners: the slots from `offsets[v]` on hold the
      cells of `v`'s corners seen so far, in scan order. */
  ghost predicate RowPlaced(tris: seq<nat>, offsets: seq<nat>, indices: seq<nat>, v: nat, j: nat)
    requires j <= NumLocal(tris) && v < |offsets|
  {
    Holds(indices, offsets[v], CellsAt(tris, v, j))
  }

  /** The placement pass after the first `j` corners: each vertex's cursor has advanced by
      the number of its corners seen, and its row holds their cells. */
  ghost predicate Placed(tris: seq<nat>, offsets: seq<nat>, writePos: seq<nat>, indices: seq<nat>, j: nat)
    requires j <= NumLocal(tris)
  {
    && |offsets| == |writePos| + 1
    && forall v | 0 <= v < |writePos| ::
      writePos[v] == offsets[v] + |CellsAt(tris, v, j)| && RowPlaced(tris, offsets, indices, v, j)
  }

  /** The offsets of the counting sort: vertex `v`'s row starts after all corners below `v`. */
  ghost predicate SortOffsets(tris: seq<nat>, offsets: seq<nat>)
  {
    forall v | 0 <= v < |offsets| :: offsets[v] == CornersBelow(tris, v, NumLocal(tris))
  }

  /** Rows are disjoint: a slot of vertex `v`'s row lies below every slot of a higher vertex. */
  lemma {:induction false} RowsDisjoint(tris: seq<nat>, offsets: seq<nat>, v: nat, u: nat)
    requires SortOffsets(tris, offsets) && v < u < |offsets|
    ensures offsets[v] + |CellsAt(tris, v, NumLocal(tris))| <= offsets[u]
  {
    CornersBelowStep(tris, v, NumLocal(tris));
    CornersBelowMonotone(tris, v + 1, u, NumLocal(tris));
  }

  /** A write outside the slots a row occupies leaves the row in place. */
  lemma HoldsKept(indices: seq<nat>, start: nat, row: seq<nat>, w: nat, x: nat)
    requires Holds(indices, start, row) && w < |indices|
    requires w < start || start + |row| <= w
    ensures Holds(Store(indices, w, x), start, row)
  {
    var indices' := Store(indices, w, x);
    forall a | 0 <= a < |row| ensures start + a < |indices'| && indices'[start + a] == row[a] {
      var cell := row[a];
      assert start + a < |indices| && indices[start + a] == cell;
    }
  }

  /** A write just after a row extends it by the written value. */
  lemma HoldsGrown(indices: seq<nat>, start: nat, row: seq<nat>, x: nat)
    requires Holds(indices, start, row) && start + |row| < |indices|
    ensures Holds(Store(indices, start + |row|, x), start, row + [x])
  {
    var indices', row' := Store(indices, start + |row|, x), row + [x];
    forall a | 0 <= a < |row'| ensures start + a < |indices'| && indices'[start + a] == row'[a] {
      if a < |row| {
        var cell := row[a];
        assert start + a < |indices| && indices[start + a] == cell;
      }
    }
  }

  /** A write outside vertex `v`'s row, for a corner not on `v`, leaves the row as it was. */
  lemma {:induction false} RowPlacedKept(tris: seq<nat>, offsets: seq<nat>, indices: seq<nat>, v: nat, j: nat, w: nat, x: nat)
    requires j < NumLocal(tris) && v < |offsets| && tris[j] != v && w < |indices|
    requires RowPlaced(tris, offsets, indices, v, j)
    requires w < offsets[v] || offsets[v] + |CellsAt(tris, v, j)| <= w
    ensures RowPlaced(tris, offsets, Store(indices, w, x), v, j + 1)
  {
    assert CellsAt(tris, v, j + 1) == CellsAt(tris, v, j);
    HoldsKept(indices, offsets[v], CellsAt(tris, v, j), w, x);
  }

  /** Writing the cell of corner `j` at its vertex's cursor extends that vertex's row. */
  lemma {:induction false} RowPlacedGrown(tris: seq<nat>, offsets: seq<nat>, indices: seq<nat>, j: nat)
    requires j < NumLocal(tris) && tris[j] < |offsets|
    requires offsets[tris[j]] + |CellsAt(tris, tris[j], j)| < |indices|
    requires RowPlaced(tris, offsets, indices, tris[j], j)
    ensures RowPlaced(tris, offsets, Store(indices, offsets[tris[j]] + |CellsAt(tris, tris[j], j)|, j / 3), tris[j], j + 1)
  {
    assert CellsAt(tris, tris[j], j + 1) == CellsAt(tris, tris[j], j) + [j / 3];
    HoldsGrown(indices, offsets[tris[j]], CellsAt(tris, tris[j], j), j / 3);
  }

  /** The write cursor of corner `j`'s vertex is inside that vertex's own row. */
  lemma CursorInRow(tris: seq<nat>, offsets: seq<nat>, writePos: seq<nat>, indices: seq<nat>, j: nat)
    requires j < NumLocal(tris) && tris[j] < |writePos|
    requires SortOffsets(tris, offsets)
    requires Placed(tris, offsets, writePos, indices, j)
    ensures offsets[tris[j]] <= writePos[tris[j]] < offsets[tris[j] + 1]
  {
    CellsAtPrefix(tris, tris[j], j + 1, NumLocal(tris));
    CornersBelowStep(tris, tris[j], NumLocal(tris));
  }

  /** Placing corner `j` writes inside its own vertex's row, so the row of every other
      vertex `v` is kept (and `v` has no new corner). */
  lemma OtherRowKept(tris: seq<nat>, offsets: seq<nat>, indices: seq<nat>, j: nat, v: nat, x: nat)
    requires j < NumLocal(tris) && tris[j] + 1 < |offsets| && v + 1 < |offsets| && v != tris[j]
    requires SortOffsets(tris, offsets)
    requires offsets[tris[j]] + |CellsAt(tris, tris[j], j)| < |indices|
    requires RowPlaced(tris, offsets, indices, v, j)
    ensures RowPlaced(tris, offsets, Store(indices, offsets[tris[j]] + |CellsAt(tris, tris[j], j)|, x), v, j + 1)
  {
    var n := NumLocal(tris);
    var u := tris[j];
    CellsAtPrefix(tris, u, j + 1, n);
    CellsAtPrefix(tris, v, j, n);
    if v < u {
      RowsDisjoint(tris, offsets, v, u);
    } else {
      RowsDisjoint(tris, offsets, u, v);
    }
    RowPlacedKept(tris, offsets, indices, v, j, offsets[u] + |CellsAt(tris, u, j)|, x);
  }

  /** The cursor of corner `j`'s vertex points inside `indices`. */
  lemma CursorBound(tris: seq<nat>, offsets: seq<nat>, writePos: seq<nat>, indices: seq<nat>, j: nat)
    requires j < NumLocal(tris) && tris[j] < |writePos|
    requires SortOffsets(tris, offsets) && |indices| == NumLocal(tris)
    requires CornersInRange(tris, |writePos|)
    requires Placed(tris, offsets, writePos, indices, j)
    ensures writePos[tris[j]] == offsets[tris[j]] + |CellsAt(tris, tris[j], j)| < |indices|
  {
    var n := NumLocal(tris);
    var u := tris[j];
    CellsAtPrefix(tris, u, j + 1, n);
    CornersBelowStep(tris, u, n);
    CornersBelowAll(tris, |writePos|, n);
    CornersBelowMonotone(tris, u + 1, |writePos|, n);
  }

  /** Placing corner `j` advances its vertex's cursor by one, and only that cursor. */
  lemma CursorsAdvanced(tris: seq<nat>, offsets: seq<nat>, writePos: seq<nat>, indices: seq<nat>, j: nat)
    requires j < NumLocal(tris) && tris[j] < |writePos|
    requires Placed(tris, offsets, writePos, indices, j)
    ensures forall v | 0 <= v < |writePos| ::
      Increment(writePos, tris[j])[v] == offsets[v] + |CellsAt(tris, v, j + 1)|
  {
  }

  /** Placing corner `j` extends its vertex's row by its cell and keeps every other row. */
  lemma RowsAdvanced(tris: seq<nat>, offsets: seq<nat>, writePos: seq<nat>, indices: seq<nat>, j: nat)
    requires j < NumLocal(tris) && tris[j] < |writePos|
    requires SortOffsets(tris, offsets)
    requires Placed(tris, offsets, writePos, indices, j)
    requires writePos[tris[j]] == offsets[tris[j]] + |CellsAt(tris, tris[j], j)| < |indices|
    ensures var stored := Store(indices, writePos[tris[j]], j / 3);
      forall v {:trigger RowPlaced(tris, offsets, stored, v, j + 1)} | 0 <= v < |writePos| ::
        RowPlaced(tris, offsets, stored, v, j + 1)
  {
    var u := tris[j];
    var stored := Store(indices, writePos[u], j / 3);
    forall v {:trigger RowPlaced(tris, offsets, stored, v, j + 1)} | 0 <= v < |writePos|
      ensures RowPlaced(tris, offsets, stored, v, j + 1)
    {
      if v == u {
        RowPlacedGrown(tris, offsets, indices, j);
      } else {
        OtherRowKept(tris, offsets, indices, j, v, j / 3);
      }
    }
  }

  /** Placing corner `j`: its vertex's cursor is inside that vertex's row, and writing the
      corner's cell there and advancing the cursor extends the placement by one corner. */
  lemma PlacedStep(tris: seq<nat>, offsets: seq<nat>, writePos: seq<nat>, indices: seq<nat>, j: nat)
    requires j < NumLocal(tris) && tris[j] < |writePos|
    requires SortOffsets(tris, offsets) && |indices| == NumLocal(tris)
    requires CornersInRange(tris, |writePos|)
    requires Placed(tris, offsets, writePos, indices, j)
    ensures offsets[tris[j]] <= writePos[tris[j]] < offsets[tris[j] + 1]
    ensures writePos[tris[j]] < |indices|
    ensures Placed(tris, offsets, Increment(writePos, tris[j]), Store(indices, writePos[tris[j]], j / 3), j + 1)
  {
    CursorInRow(tris, offsets, writePos, indices, j);
    CursorBound(tris, offsets, writePos, indices, j);
    CursorsAdvanced(tris, offsets, writePos, indices, j);
    RowsAdvanced(tris, offsets, writePos, indices, j);
  }

  /** Once every corner is placed, each vertex's cursor has reached the start of the next
      vertex's row: it never left its own row and filled all of it. */
  lemma CursorsEndAtRowEnds(tris: seq<nat>, offsets: seq<nat>, writePos: seq<nat>, indices: seq<nat>)
    requires SortOffsets(tris, offsets)
    requires Placed(tris, offsets, writePos, indices, NumLocal(tris))
    ensures forall v | 0 <= v < |writePos| :: writePos[v] == offsets[v + 1]
  {
    forall v | 0 <= v < |writePos| ensures writePos[v] == offsets[v + 1] {
      CornersBelowStep(tris, v, NumLocal(tris));
    }
  }

  /** Before any corner is placed every cursor is at its row's start and every row is empty. */
  lemma PlacedInitially(tris: seq<nat>, offsets: seq<nat>, writePos: seq<nat>, indices: seq<nat>)
    requires |offsets| > 0 && writePos == offsets[..|offsets| - 1]
    ensures Placed(tris, offsets, writePos, indices, 0)
  {
  }

  /** One cell of the placement pass: its three corners in order. */
  method PlaceCellCorners(tris: seq<nat>, offsets: seq<nat>, c: nat, writePos0: seq<nat>, indices0: seq<nat>)
    returns (writePos: seq<nat>, indices: seq<nat>)
    requires c < NumCells(tris)
    requires SortOffsets(tris, offsets) && |indices0| == NumLocal(tris)
    requires CornersInRange(tris, |writePos0|)
    requires Placed(tris, offsets, writePos0, indices0, 3 * c)
    ensures |writePos| == |writePos0| && |indices| == NumLocal(tris)
    ensures Placed(tris, offsets, writePos, indices, 3 * c + 3)
  {
    writePos, indices := writePos0, indices0;
    var base := c * 3;
    for i := 0 to 3
      invariant |writePos| == |writePos0| && |indices| == NumLocal(tris)
      invariant Placed(tris, offsets, writePos, indices, base + i)
    {
      CornerIndex(tris, c, i);
      var v := tris[base + i];
      PlacedStep(tris, offsets, writePos, indices, base + i);
      indices := Store(indices, writePos[v], c);
      writePos := Increment(writePos, v);
    }
  }

  /** The placement pass: cell by cell, each corner's cell goes to its vertex's cursor. */
  method PlaceCells(tris: seq<nat>, offsets: seq<nat>) returns (indices: seq<nat>, writePos: seq<nat>)
    requires SortOffsets(tris, offsets) && |offsets| > 0
    requires CornersInRange(tris, |offsets| - 1)
    requires offsets[|offsets| - 1] == NumLocal(tris)
    ensures |indices| == NumLocal(tris)
    ensures forall v | 0 <= v < |offsets| - 1 :: RowPlaced(tris, offsets, indices, v, NumLocal(tris))
    ensures |writePos| == |offsets| - 1
    ensures forall v | 0 <= v < |writePos| :: writePos[v] == offsets[v + 1]
  {
    var numVertices := |offsets| - 1;
    writePos := offsets[..numVertices];
    indices := seq(offsets[numVertices], _ => 0);
    PlacedInitially(tris, offsets, writePos, indices);
    for c := 0 to NumCells(tris)
      invariant |writePos| == numVertices && |indices| == NumLocal(tris)
      invariant Placed(tris, offsets, writePos, indices, 3 * c)
    {
      writePos, indices := PlaceCellCorners(tris, offsets, c, writePos, indices);
    }
    CursorsEndAtRowEnds(tris, offsets, writePos, indices);
  }

  /** A placed row, sliced out by its two offsets, is the vertex's cell list. */
  lemma RowFromPlaced(tris: seq<nat>, offsets: seq<nat>, indices: seq<nat>, v: nat)
    requires SortOffsets(tris, offsets) && v + 1 < |offsets|
    requires offsets[|offsets| - 1] == |indices|
    requires RowPlaced(tris, offsets, indices, v, NumLocal(tris))
    ensures offsets[v] <= offsets[v + 1] <= |indices|
    ensures indices[offsets[v]..offsets[v + 1]] == CellsAt(tris, v, NumLocal(tris))
  {
    var n := NumLocal(tris);
    CornersBelowStep(tris, v, n);
    CornersBelowMonotone(tris, v + 1, |offsets| - 1, n);
    var row := indices[offsets[v]..offsets[v + 1]];
    forall a | 0 <= a < |row| ensures row[a] == CellsAt(tris, v, n)[a] {
      assert row[a] == indices[offsets[v] + a];
    }
  }

  /** Vertex->Cell: row `v` lists, in ascending scan order, the cell of every corner on
      `v`, and its offset counts the corners on lower vertices. */
  method BuildVertexCell(tris: seq<nat>, numVertices: nat) returns (adj: Adjacency<VertexCellTag>)
    requires CornersInRange(tris, numVertices)
    ensures Valid(adj) && Len(adj) == numVertices && |adj.indices| == NumLocal(tris)
    ensures forall v | 0 <= v <= numVertices :: adj.offsets[v] == CornersBelow(tris, v, NumLocal(tris))
    ensures forall v | 0 <= v < numVertices :: RowInRange(adj, v) && Get(adj, v) == CellsAt(tris, v, NumLocal(tris))
  {
    var n := NumLocal(tris);
    var counts := CountCorners(tris, numVertices);
    var offsets := RunningOffsets(tris, counts);
    CornersBelowAll(tris, numVertices, n);
    CornersBelowZero(tris, n);
    var indices, _ := PlaceCells(tris, offsets);
    adj := Adjacency(offsets, indices);
    forall i, j | 0 <= i <= j < |offsets| ensures offsets[i] <= offsets[j] {
      CornersBelowMonotone(tris, i, j, n);
    }
    forall v | 0 <= v < numVertices
      ensures RowInRange(adj, v) && Get(adj, v) == CellsAt(tris, v, n)
    {
      RowFromPlaced(tris, offsets, indices, v);
    }
  }
}
