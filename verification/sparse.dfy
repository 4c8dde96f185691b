/** `sparseDot` of tasks/utilities.py (and its identical copy at the top of
    tasks/reachability.py): the product of a matrix in compressed sparse row
    form with a vector, computed row by row. */
module Sparse {

  import opened Vectors

  /** A `rows` x `cols` matrix in compressed sparse row form: the stored entries
      of row i are `data[k]` at column `indices[k]` for k in
      [indptr[i], indptr[i+1]). A column may be stored more than once; its
      entries then add up. */
  datatype Csr = Csr(rows: nat, cols: nat, data: seq<real>, indices: seq<nat>, indptr: seq<nat>)

  predicate WellFormed(A: Csr) {
    && |A.indptr| == A.rows + 1
    && |A.indices| == |A.data|
    && A.indptr[0] == 0
    && A.indptr[A.rows] == |A.data|
    && (forall i | 0 <= i < A.rows :: A.indptr[i] <= A.indptr[i + 1])
    && (forall i | 0 <= i <= A.rows :: A.indptr[i] <= |A.data|)
    && (forall k | 0 <= k < |A.indices| :: A.indices[k] < A.cols)
  }

  /** The sum of data[k] * v[indices[k]] over the stored entries k in [lo, hi). */
  function RowSum(A: Csr, v: seq<real>, lo: nat, hi: nat): real
    requires WellFormed(A) && |v| == A.cols && lo <= hi <= |A.data|
    decreases hi - lo
  {
    if hi == lo then 0.0 else RowSum(A, v, lo, hi - 1) + A.data[hi - 1] * v[A.indices[hi - 1]]
  }

  /** The dense row holding the entries stored in [lo, hi), duplicates added up. */
  function RowDense(A: Csr, lo: nat, hi: nat): (r: seq<real>)
    requires WellFormed(A) && lo <= hi <= |A.data|
    ensures |r| == A.cols
    decreases hi - lo
  {
    if hi == lo then Zeros(A.cols)
    else
      var d := RowDense(A, lo, hi - 1);
      var c := A.indices[hi - 1];
      d[c := d[c] + A.data[hi - 1]]
  }

  /** Row i of the dense matrix that `A` encodes. */
  function DenseRow(A: Csr, i: nat): (r: seq<real>)
    requires WellFormed(A) && i < A.rows
    ensures |r| == A.cols
  {
    RowDense(A, A.indptr[i], A.indptr[i + 1])
  }

  /** The dense `rows` x `cols` matrix that `A` encodes. */
  function Densify(A: Csr): (M: seq<seq<real>>)
    requires WellFormed(A)
    ensures |M| == A.rows && forall i | 0 <= i < A.rows :: M[i] == DenseRow(A, i)
  {
    seq(A.rows, i requires 0 <= i < A.rows => DenseRow(A, i))
  }

  /** Summing the stored entries of a row against `v` is the dot product of the
      dense row with `v`. */
  lemma {:induction false} RowSumIsDot(A: Csr, v: seq<real>, lo: nat, hi: nat)
    requires WellFormed(A) && |v| == A.cols && lo <= hi <= |A.data|
    ensures RowSum(A, v, lo, hi) == Dot(RowDense(A, lo, hi), v)
    decreases hi - lo
  {
    if hi == lo {
      DotZeros(v);
    } else {
      var d := RowDense(A, lo, hi - 1);
      var c := A.indices[hi - 1];
      RowSumIsDot(A, v, lo, hi - 1);
      DotUpdate(d, v, c, A.data[hi - 1]);
      assert RowDense(A, lo, hi) == d[c := d[c] + A.data[hi - 1]];
    }
  }

  /** The inner loop of `sparseDot`: the stored entries in [lo, hi) against `v`. */
  method RowProduct(A: Csr, v: seq<real>, lo: nat, hi: nat) returns (sum: real)
    requires WellFormed(A) && |v| == A.cols && lo <= hi <= |A.data|
    ensures sum == RowSum(A, v, lo, hi)
    ensures sum == Dot(RowDense(A, lo, hi), v)
  {
    sum := 0.0;
    var j := lo;
    while j < hi
      invariant lo <= j <= hi && sum == RowSum(A, v, lo, j)
    {
      sum := sum + A.data[j] * v[A.indices[j]];
      j := j + 1;
    }
    RowSumIsDot(A, v, lo, hi);
  }

  /** `sparseDot(A, v)`: a vector of length `rows` whose entry i sums the
      stored entries of row i against `v`, which is the dense product A·v;
      a row with no stored entries gives 0. The row cursor always equals i. */
  method SparseDot(A: Csr, v: seq<real>) returns (Av: seq<real>)
    requires WellFormed(A) && |v| == A.cols
    ensures |Av| == A.rows
    ensures forall i | 0 <= i < A.rows :: Av[i] == RowSum(A, v, A.indptr[i], A.indptr[i + 1])
    ensures forall i | 0 <= i < A.rows :: Av[i] == Dot(Densify(A)[i], v)
    ensures forall i | 0 <= i < A.rows && A.indptr[i] == A.indptr[i + 1] :: Av[i] == 0.0
  {
    Av := Zeros(A.rows);
    var cursor := 0;
    var i := 0;
    while i < A.rows
      invariant 0 <= i <= A.rows && cursor == i && |Av| == A.rows
      invariant forall r | 0 <= r < i :: Av[r] == RowSum(A, v, A.indptr[r], A.indptr[r + 1])
      invariant forall r | 0 <= r < i :: Av[r] == Dot(DenseRow(A, r), v)
    {
      var sum := RowProduct(A, v, A.indptr[cursor], A.indptr[cursor + 1]);
      Av := Av[i := sum];
      cursor := cursor + 1;
      i := i + 1;
    }
  }
}
