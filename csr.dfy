/** Compressed (CSR) encoding of a one-to-many relation: row `i` of the relation is
    the slice `indices[offsets[i] .. offsets[i+1]]`. */
module Csr {

  /** Relation-kind markers. They carry no data; as the type argument of `Adjacency`
      they keep a Cell->Edge relation from being passed where a Vertex->Edge one is expected. */
  datatype CellTag = CellTag              // Cell -> Cell
  datatype CellEdgeTag = CellEdgeTag      // Cell -> Edge
  datatype EdgeCellTag = EdgeCellTag      // Edge -> Cell
  datatype EdgeVertexTag = EdgeVertexTag  // Edge -> Vertex
  datatype VertexCellTag = VertexCellTag  // Vertex -> Cell
  datatype VertexEdgeTag = VertexEdgeTag  // Vertex -> Edge

  /** The container; `K` is the relation-kind marker and is never stored. */
  datatype Adjacency<K> = Adjacency(offsets: seq<nat>, indices: seq<nat>)

  /** Well-formed CSR data: offsets start at 0, never decrease, and end at the number of indices. */
  ghost predicate Valid<K>(a: Adjacency<K>)
  {
    && |a.offsets| > 0
    && a.offsets[0] == 0
    && a.offsets[|a.offsets| - 1] == |a.indices|
    && forall i, j | 0 <= i <= j < |a.offsets| :: a.offsets[i] <= a.offsets[j]
  }

  /** Row `i` can be sliced without a panic: both offsets exist and bracket a slice of `indices`. */
  ghost predicate RowInRange<K>(a: Adjacency<K>, i: nat)
  {
    i + 1 < |a.offsets| && a.offsets[i] <= a.offsets[i + 1] <= |a.indices|
  }

  /** Number of rows: one less than the number of offsets, and 0 (not a wrap-around)
      when there are no offsets at all. */
  function Len<K>(a: Adjacency<K>): (n: nat)
    ensures |a.offsets| == 0 ==> n == 0
    ensures |a.offsets| > 0 ==> n + 1 == |a.offsets|
  {
    if |a.offsets| == 0 then 0 else |a.offsets| - 1
  }

  /** True exactly when the relation has no rows, including the saturated case with no offsets. */
  function IsEmpty<K>(a: Adjacency<K>): (b: bool)
    ensures b <==> |a.offsets| <= 1
  {
    Len(a) == 0
  }

  /** The neighbours of `i`: its slice of `indices`, element by element. */
  function Get<K>(a: Adjacency<K>, i: nat): (r: seq<nat>)
    requires RowInRange(a, i)
    ensures |r| == a.offsets[i + 1] - a.offsets[i]
    ensures forall j | 0 <= j < |r| :: r[j] == a.indices[a.offsets[i] + j]
  {
    a.indices[a.offsets[i]..a.offsets[i + 1]]
  }

  /** The degree of `i`: the difference of its two offsets (which must not underflow), and
      the length of its row whenever the row can be sliced. */
  function Count<K>(a: Adjacency<K>, i: nat): (n: nat)
    requires i + 1 < |a.offsets| && a.offsets[i] <= a.offsets[i + 1]
    ensures RowInRange(a, i) ==> n == |Get(a, i)|
  {
    a.offsets[i + 1] - a.offsets[i]
  }

  /** The first `n` rows, concatenated. */
  ghost function Rows<K>(a: Adjacency<K>, n: nat): seq<nat>
    requires Valid(a) && n <= Len(a)
  {
    if n == 0 then [] else Rows(a, n - 1) + Get(a, n - 1)
  }

  /** In a well-formed relation every row below `Len` can be sliced. */
  lemma ValidRowsInRange<K>(a: Adjacency<K>, i: nat)
    requires Valid(a) && i < Len(a)
    ensures RowInRange(a, i)
  {
  }

  /** The first `n` rows of a well-formed relation are exactly the prefix of `indices`
      that ends at `offsets[n]`. */
  lemma {:induction false} RowsArePrefix<K>(a: Adjacency<K>, n: nat)
    requires Valid(a) && n <= Len(a)
    ensures Rows(a, n) == a.indices[..a.offsets[n]]
  {
    if n > 0 {
      RowsArePrefix(a, n - 1);
      assert a.indices[..a.offsets[n]] == a.indices[..a.offsets[n - 1]] + Get(a, n - 1);
    }
  }

  /** The rows of a well-formed relation partition its indices, in row order. */
  lemma {:induction false} RowsCoverIndices<K>(a: Adjacency<K>)
    requires Valid(a)
    ensures Rows(a, Len(a)) == a.indices
  {
    RowsArePrefix(a, Len(a));
    assert a.indices[..a.offsets[Len(a)]] == a.indices;
  }
}
