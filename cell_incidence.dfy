/** Which cells lie on each edge (the Edge->Cell slot rule) and which cell lies across
    each local edge (the Cell->Cell neighbour), as functions of the triangle list, with
    the closed-manifold facts that make them meaningful. */
module CellIncidence {
  import opened EdgeNumbering

  /** Local edge `i` runs along canonical pair `p`, lower->higher when `primary` holds and
      not lower->higher (so higher->lower, or degenerate) otherwise. */
  predicate Traverses(tris: seq<nat>, i: nat, p: Pair, primary: bool)
    requires i < NumLocal(tris)
  {
    Canon(Dir(tris, i)) == p && (Dir(tris, i).0 < Dir(tris, i).1) == primary
  }

  /** The Edge->Cell slot of pair `p` after the first `j` local edges: every traversal in
      the slot's direction overwrites it with its cell; a slot never written keeps 0. */
  function LastSlot(tris: seq<nat>, j: nat, p: Pair, primary: bool): nat
    requires j <= NumLocal(tris)
    decreases j
  {
    if j == 0 then 0
    else if Traverses(tris, j - 1, p, primary) then (j - 1) / 3
    else LastSlot(tris, j - 1, p, primary)
  }

  /** Value of the Edge->Cell numbering map: the edge id and its two cell slots. The
      source's third component, an occurrence counter nobody reads, is not kept. */
  datatype SlotEntry = SlotEntry(id: nat, slot0: nat, slot1: nat)

  /** A traversal overwrites the slot of its direction with its cell. */
  function Record(entry: SlotEntry, primary: bool, c: nat): (r: SlotEntry)
    ensures r.id == entry.id
    ensures primary ==> r.slot0 == c && r.slot1 == entry.slot1
    ensures !primary ==> r.slot0 == entry.slot0 && r.slot1 == c
  {
    if primary then entry.(slot0 := c) else entry.(slot1 := c)
  }

  /** The Edge->Cell numbering map after the first `j` local edges: on first sight a pair
      gets an entry with the next id and both slots 0, then each traversal records its cell
      in the slot of its direction. */
  function SlotScan(tris: seq<nat>, j: nat): map<Pair, SlotEntry>
    requires j <= NumLocal(tris)
  {
    if j == 0 then map[]
    else
      var t := SlotScan(tris, j - 1);
      var q := Canon(Dir(tris, j - 1));
      var initial := SlotEntry(|ScanUpTo(tris, j - 1).order|, 0, 0);
      t[q := Record(if q in t then t[q] else initial, Dir(tris, j - 1).0 < Dir(tris, j - 1).1, (j - 1) / 3)]
  }

  /** The Edge->Cell map holds an entry for exactly the numbered pairs. */
  lemma {:induction false} SlotScanKeys(tris: seq<nat>, j: nat)
    requires j <= NumLocal(tris)
    ensures SlotScan(tris, j).Keys == ScanUpTo(tris, j).ids.Keys
  {
    if j > 0 {
      SlotScanKeys(tris, j - 1);
    }
  }

  /** One step of the Edge->Cell map, spelled out for the loop that builds it: whether the
      pair is new, the updated map, and the counter it leaves. */
  lemma SlotScanStep(tris: seq<nat>, j: nat)
    requires j < NumLocal(tris)
    ensures var t := SlotScan(tris, j);
      var q := Canon(Dir(tris, j));
      var n := |ScanUpTo(tris, j).order|;
      && (q in t <==> q in ScanUpTo(tris, j).ids)
      && SlotScan(tris, j + 1) == t[q := Record(if q in t then t[q] else SlotEntry(n, 0, 0), Dir(tris, j).0 < Dir(tris, j).1, j / 3)]
      && |ScanUpTo(tris, j + 1).order| == if q in t then n else n + 1
  {
    SlotScanKeys(tris, j);
  }

  /** The Edge->Cell entry of a numbered pair holds the id the numbering gives it and the
      slot rule's two cells. */
  lemma {:induction false} SlotScanEntry(tris: seq<nat>, j: nat, p: Pair)
    requires j <= NumLocal(tris)
    requires p in SlotScan(tris, j)
    ensures p in ScanUpTo(tris, j).ids
    ensures SlotScan(tris, j)[p] == SlotEntry(ScanUpTo(tris, j).ids[p], LastSlot(tris, j, p, true), LastSlot(tris, j, p, false))
  {
    SlotScanKeys(tris, j);
    if j > 0 {
      var q := Canon(Dir(tris, j - 1));
      if p != q || q in SlotScan(tris, j - 1) {
        SlotScanEntry(tris, j - 1, p);
      } else {
        SlotScanKeys(tris, j - 1);
        ScanCovers(tris, j - 1);
        SlotUnwritten(tris, j - 1, q, true);
        SlotUnwritten(tris, j - 1, q, false);
      }
    }
  }

  /** The Edge->Cell map holds an entry for exactly the numbered pairs, with the id the
      numbering gives and the slot rule's two cells. */
  lemma {:induction false} SlotScanEntries(tris: seq<nat>, j: nat)
    requires j <= NumLocal(tris)
    ensures SlotScan(tris, j).Keys == ScanUpTo(tris, j).ids.Keys
    ensures forall p | p in SlotScan(tris, j) ::
      SlotScan(tris, j)[p] == SlotEntry(ScanUpTo(tris, j).ids[p], LastSlot(tris, j, p, true), LastSlot(tris, j, p, false))
  {
    SlotScanKeys(tris, j);
    forall p | p in SlotScan(tris, j)
      ensures SlotScan(tris, j)[p] == SlotEntry(ScanUpTo(tris, j).ids[p], LastSlot(tris, j, p, true), LastSlot(tris, j, p, false))
    {
      SlotScanEntry(tris, j, p);
    }
  }

  /** Slot rule: the slot holds the cell of the LAST traversal in its direction. */
  lemma {:induction false} SlotIsLast(tris: seq<nat>, j: nat, p: Pair, primary: bool, i: nat)
    requires i < j <= NumLocal(tris)
    requires Traverses(tris, i, p, primary)
    requires forall i' | i < i' < j :: !Traverses(tris, i', p, primary)
    ensures LastSlot(tris, j, p, primary) == i / 3
  {
    if j - 1 != i {
      SlotIsLast(tris, j - 1, p, primary, i);
    }
  }

  /** Slot rule: a slot that no local edge traverses in its direction stays 0. */
  lemma {:induction false} SlotUnwritten(tris: seq<nat>, j: nat, p: Pair, primary: bool)
    requires j <= NumLocal(tris)
    requires forall i | 0 <= i < j :: !Traverses(tris, i, p, primary)
    ensures LastSlot(tris, j, p, primary) == 0
  {
    if j > 0 {
      SlotUnwritten(tris, j - 1, p, primary);
    }
  }

  /** A slot written at all holds a cell of the mesh. */
  lemma {:induction false} SlotIsCell(tris: seq<nat>, j: nat, p: Pair, primary: bool)
    requires 0 < j <= NumLocal(tris)
    ensures LastSlot(tris, j, p, primary) < NumCells(tris)
  {
    if j > 1 {
      SlotIsCell(tris, j - 1, p, primary);
    }
  }

  /** The neighbour of cell `c` across its local edge `k`, as Cell->Cell computes it from
      the edge's two Edge->Cell slots: slot 1 when slot 0 is `c`, slot 0 otherwise. */
  function Neighbor(tris: seq<nat>, c: nat, k: nat): nat
    requires c < NumCells(tris) && k < 3
  {
    var p := Canon(LocalEdge(tris, c, k));
    var s0 := LastSlot(tris, NumLocal(tris), p, true);
    var s1 := LastSlot(tris, NumLocal(tris), p, false);
    if s0 == c then s1 else s0
  }

  /** A closed, boundary-free 2-manifold: no local edge is degenerate, no directed local
      edge occurs twice, and every local edge is matched by its reverse, so each canonical
      pair occurs exactly twice, once in each direction. */
  ghost predicate ClosedManifold(tris: seq<nat>)
  {
    && (forall i | 0 <= i < NumLocal(tris) :: Dir(tris, i).0 != Dir(tris, i).1)
    && (forall i, i' | 0 <= i < i' < NumLocal(tris) :: Dir(tris, i) != Dir(tris, i'))
    && (forall i | 0 <= i < NumLocal(tris) :: HasReverse(tris, i))
  }

  /** Some local edge runs along local edge `i` backwards. */
  ghost predicate HasReverse(tris: seq<nat>, i: nat)
    requires i < NumLocal(tris)
  {
    exists i' :: 0 <= i' < NumLocal(tris) && Dir(tris, i') == (Dir(tris, i).1, Dir(tris, i).0)
  }

  /** A cell's three corners are distinct when none of its local edges is degenerate, so a
      local edge and its reverse never lie in the same cell. */
  lemma ReverseInOtherCell(tris: seq<nat>, i: nat, i': nat)
    requires ClosedManifold(tris)
    requires i < NumLocal(tris) && i' < NumLocal(tris)
    requires Dir(tris, i') == (Dir(tris, i).1, Dir(tris, i).0)
    ensures i / 3 != i' / 3
  {
    var c, k, k' := i / 3, i % 3, i' % 3;
    assert i == 3 * c + k;
    assert i' == 3 * (i' / 3) + k';
    DirOfIndex(tris, i);
    DirOfIndex(tris, i');
    DirOfCell(tris, c, 0);
    DirOfCell(tris, c, 1);
    DirOfCell(tris, c, 2);
    var x, y, z := tris[3 * c], tris[3 * c + 1], tris[3 * c + 2];
    assert Dir(tris, 3 * c) == (x, y) && Dir(tris, 3 * c + 1) == (y, z) && Dir(tris, 3 * c + 2) == (z, x);
    assert x != y && y != z && z != x;
  }

  /** On a closed manifold the two slots of the edge under local edge `i` hold the cell of
      `i` and the cell of its reverse `i'`, in the slot matching each one's direction. */
  lemma EdgeSlots(tris: seq<nat>, i: nat) returns (i': nat)
    requires ClosedManifold(tris)
    requires i < NumLocal(tris)
    ensures i' < NumLocal(tris) && Dir(tris, i') == (Dir(tris, i).1, Dir(tris, i).0)
    ensures i / 3 != i' / 3
    ensures var p := Canon(Dir(tris, i));
      (LastSlot(tris, NumLocal(tris), p, true), LastSlot(tris, NumLocal(tris), p, false))
      == if Dir(tris, i).0 < Dir(tris, i).1 then (i / 3, i' / 3) else (i' / 3, i / 3)
  {
    var n := NumLocal(tris);
    assert HasReverse(tris, i);
    i' :| 0 <= i' < n && Dir(tris, i') == (Dir(tris, i).1, Dir(tris, i).0);
    ReverseInOtherCell(tris, i, i');
    var p := Canon(Dir(tris, i));
    var fwd := Dir(tris, i).0 < Dir(tris, i).1;
    var bwd := !fwd;
    assert Traverses(tris, i, p, fwd) && Traverses(tris, i', p, bwd);
    // Each direction of `p` is traversed by exactly one local edge.
    forall i2 | 0 <= i2 < n && Traverses(tris, i2, p, fwd) ensures i2 == i {
      assert Dir(tris, i2) == Dir(tris, i);
    }
    forall i2 | 0 <= i2 < n && Traverses(tris, i2, p, bwd) ensures i2 == i' {
      assert Dir(tris, i2) == Dir(tris, i');
    }
    SlotIsLast(tris, n, p, fwd, i);
    SlotIsLast(tris, n, p, bwd, i');
  }

  /** On a closed manifold the neighbour across a local edge is the cell holding the
      reverse local edge, never the cell itself, and that cell sees `c` across it. */
  lemma NeighborAcross(tris: seq<nat>, c: nat, k: nat) returns (k': nat)
    requires ClosedManifold(tris)
    requires c < NumCells(tris) && k < 3
    ensures Neighbor(tris, c, k) < NumCells(tris) && k' < 3
    ensures Neighbor(tris, c, k) != c
    ensures LocalEdge(tris, Neighbor(tris, c, k), k') == (LocalEdge(tris, c, k).1, LocalEdge(tris, c, k).0)
    ensures Neighbor(tris, Neighbor(tris, c, k), k') == c
  {
    var i := 3 * c + k;
    DirOfCell(tris, c, k);
    var i' := EdgeSlots(tris, i);
    var b := i' / 3;
    k' := i' % 3;
    DirOfIndex(tris, i');
    assert Canon(LocalEdge(tris, b, k')) == Canon(LocalEdge(tris, c, k));
  }

  /** On a closed manifold Cell->Cell is symmetric: `b` is a neighbour of `a` exactly when
      `a` is a neighbour of `b`. */
  lemma NeighborSymmetric(tris: seq<nat>, a: nat, b: nat)
    requires ClosedManifold(tris)
    requires a < NumCells(tris) && b < NumCells(tris)
    ensures (exists k :: 0 <= k < 3 && Neighbor(tris, a, k) == b)
        <==> (exists k :: 0 <= k < 3 && Neighbor(tris, b, k) == a)
  {
    if k :| 0 <= k < 3 && Neighbor(tris, a, k) == b {
      var k' := NeighborAcross(tris, a, k);
      assert Neighbor(tris, b, k') == a;
    }
    if k :| 0 <= k < 3 && Neighbor(tris, b, k) == a {
      var k' := NeighborAcross(tris, b, k);
      assert Neighbor(tris, a, k') == b;
    }
  }
}
