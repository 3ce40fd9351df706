/** Sparse matrices in triplet (coordinate) form, as the exterior derivatives are assembled:
    a shape and a list of (row, column, value) triplets. Converting to compressed form sums
    the values of duplicate triplets, so an entry of the matrix is the sum of the values of
    all triplets at that position. Values are integers: every value the derivatives store is
    -1 or +1, and sums and products of those are exact. */
module TripletMatrix {

  datatype Triplet = Triplet(row: nat, col: nat, val: int)

  datatype TriMat = TriMat(rows: nat, cols: nat, entries: seq<Triplet>)

  /** An empty `rows` x `cols` matrix. */
  function Empty(rows: nat, cols: nat): (m: TriMat)
    ensures m.rows == rows && m.cols == cols && |m.entries| == 0
  {
    TriMat(rows, cols, [])
  }

  /** `add_triplet`: appends one triplet; the position must lie inside the shape (the
      library panics otherwise). */
  function AddTriplet(m: TriMat, row: nat, col: nat, val: int): (r: TriMat)
    requires row < m.rows && col < m.cols
    ensures r.rows == m.rows && r.cols == m.cols
    ensures |r.entries| == |m.entries| + 1 && r.entries[..|m.entries|] == m.entries
    ensures r.entries[|m.entries|] == Triplet(row, col, val)
  {
    TriMat(m.rows, m.cols, m.entries + [Triplet(row, col, val)])
  }

  /** Entry `(i, j)`: the summed values of the triplets at that position. */
  function Entry(ts: seq<Triplet>, i: nat, j: nat): int
  {
    if |ts| == 0 then 0
    else
      var t := ts[|ts| - 1];
      Entry(ts[..|ts| - 1], i, j) + (if t.row == i && t.col == j then t.val else 0)
  }

  /** The sum of row `i`: the summed values of the triplets in that row. */
  function RowSum(ts: seq<Triplet>, i: nat): int
  {
    if |ts| == 0 then 0
    else
      var t := ts[|ts| - 1];
      RowSum(ts[..|ts| - 1], i) + (if t.row == i then t.val else 0)
  }

  /** Entry `(i, j)` of the product `A B`, where `A`'s triplets are `a` and `B`'s are `b`:
      the sum over the first `k` columns of `A` of `A[i, e] * B[e, j]`. */
  function ProductUpTo(a: seq<Triplet>, b: seq<Triplet>, i: nat, j: nat, k: nat): int
  {
    if k == 0 then 0 else ProductUpTo(a, b, i, j, k - 1) + Entry(a, i, k - 1) * Entry(b, k - 1, j)
  }

  /** Entry `(i, j)` of the product of two matrices. */
  function Product(a: TriMat, b: TriMat, i: nat, j: nat): int
  {
    ProductUpTo(a.entries, b.entries, i, j, a.cols)
  }

  /** The same entry expanded over the triplets of `A`: each triplet of row `i` contributes
      its value times the entry of `B` in the row named by its column. */
  function TripletProduct(a: seq<Triplet>, b: seq<Triplet>, i: nat, j: nat): int
  {
    if |a| == 0 then 0
    else
      var t := a[|a| - 1];
      TripletProduct(a[..|a| - 1], b, i, j) + (if t.row == i then t.val * Entry(b, t.col, j) else 0)
  }

  /** Adding one triplet to `A` adds its contribution to every entry of `A B` whose column
      range includes the triplet's column. */
  lemma {:induction false} ProductOfLast(a: seq<Triplet>, b: seq<Triplet>, i: nat, j: nat, k: nat)
    requires |a| > 0
    ensures var t := a[|a| - 1];
      ProductUpTo(a, b, i, j, k)
      == ProductUpTo(a[..|a| - 1], b, i, j, k) + (if t.row == i && t.col < k then t.val * Entry(b, t.col, j) else 0)
  {
    if k > 0 {
      ProductOfLast(a, b, i, j, k - 1);
      var t := a[|a| - 1];
      var x := Entry(b, k - 1, j);
      var d := if t.row == i && t.col == k - 1 then t.val else 0;
      assert Entry(a, i, k - 1) == Entry(a[..|a| - 1], i, k - 1) + d;
      assert Entry(a, i, k - 1) * x == Entry(a[..|a| - 1], i, k - 1) * x + d * x;
    }
  }

  /** When every column of `A` is below `k`, the column-wise product equals the triplet-wise one. */
  lemma {:induction false} ProductByTriplets(a: seq<Triplet>, b: seq<Triplet>, i: nat, j: nat, k: nat)
    requires forall n | 0 <= n < |a| :: a[n].col < k
    ensures ProductUpTo(a, b, i, j, k) == TripletProduct(a, b, i, j)
  {
    if |a| == 0 {
      ProductOfEmpty(b, i, j, k);
    } else {
      ProductOfLast(a, b, i, j, k);
      ProductByTriplets(a[..|a| - 1], b, i, j, k);
    }
  }

  lemma {:induction false} ProductOfEmpty(b: seq<Triplet>, i: nat, j: nat, k: nat)
    ensures ProductUpTo([], b, i, j, k) == 0
  {
    if k > 0 {
      ProductOfEmpty(b, i, j, k - 1);
    }
  }
}
