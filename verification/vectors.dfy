/** Real vectors as sequences, and the dot product the separator atoms are built on. */
module Vectors {

  function Dot(a: seq<real>, b: seq<real>): real
    requires |a| == |b|
    decreases |a|
  {
    if |a| == 0 then 0.0 else a[0] * b[0] + Dot(a[1..], b[1..])
  }

  function Zeros(n: nat): (z: seq<real>)
    ensures |z| == n && forall i | 0 <= i < n :: z[i] == 0.0
  {
    seq(n, i => 0.0)
  }

  function Neg(a: seq<real>): (r: seq<real>)
    ensures |r| == |a| && forall i | 0 <= i < |a| :: r[i] == -a[i]
  {
    seq(|a|, i requires 0 <= i < |a| => -a[i])
  }

  /** The vector that is `s` at index `p` and zero elsewhere. */
  function Unit(n: nat, p: nat, s: real): (u: seq<real>)
    requires p < n
    ensures |u| == n && u[p] == s && forall i | 0 <= i < n && i != p :: u[i] == 0.0
  {
    seq(n, i => if i == p then s else 0.0)
  }

  /** Entrywise difference a - b. */
  function Sub(a: seq<real>, b: seq<real>): (r: seq<real>)
    requires |a| == |b|
    ensures |r| == |a| && forall i | 0 <= i < |a| :: r[i] == a[i] - b[i]
  {
    seq(|a|, i requires 0 <= i < |a| => a[i] - b[i])
  }

  predicate NonNegative(a: seq<real>) {
    forall i | 0 <= i < |a| :: a[i] >= 0.0
  }

  lemma {:induction false} DotZeros(a: seq<real>)
    ensures Dot(Zeros(|a|), a) == 0.0
  {
    if |a| > 0 {
      assert Zeros(|a|)[1..] == Zeros(|a| - 1);
      DotZeros(a[1..]);
    }
  }

  lemma {:induction false} DotNeg(a: seq<real>, b: seq<real>)
    requires |a| == |b|
    ensures Dot(Neg(a), b) == -Dot(a, b)
  {
    if |a| > 0 {
      assert Neg(a)[1..] == Neg(a[1..]);
      DotNeg(a[1..], b[1..]);
    }
  }

  /** Two vectors with disjoint supports have dot product zero. */
  lemma {:induction false} DotDisjoint(a: seq<real>, b: seq<real>)
    requires |a| == |b|
    requires forall i | 0 <= i < |a| :: a[i] == 0.0 || b[i] == 0.0
    ensures Dot(a, b) == 0.0
  {
    if |a| > 0 {
      assert a[0] * b[0] == 0.0;
      DotDisjoint(a[1..], b[1..]);
    }
  }

  lemma {:induction false} DotNonNegative(a: seq<real>, b: seq<real>)
    requires |a| == |b| && NonNegative(a) && NonNegative(b)
    ensures Dot(a, b) >= 0.0
  {
    if |a| > 0 {
      assert a[0] * b[0] >= 0.0;
      DotNonNegative(a[1..], b[1..]);
    }
  }

  lemma {:induction false} DotUnit(n: nat, p: nat, s: real, b: seq<real>)
    requires p < n == |b|
    ensures Dot(Unit(n, p, s), b) == s * b[p]
    decreases n
  {
    var u := Unit(n, p, s);
    if p == 0 {
      DotDisjoint(u[1..], b[1..]);
    } else {
      assert u[1..] == Unit(n - 1, p - 1, s);
      DotUnit(n - 1, p - 1, s, b[1..]);
    }
  }

  /** Adding `d` to one entry of `a` moves the dot product by `d` times the matching entry of `b`. */
  lemma {:induction false} DotUpdate(a: seq<real>, b: seq<real>, c: nat, d: real)
    requires |a| == |b| && c < |a|
    ensures Dot(a[c := a[c] + d], b) == Dot(a, b) + d * b[c]
    decreases |a|
  {
    if c == 0 {
      assert a[c := a[c] + d][1..] == a[1..];
    } else {
      assert a[c := a[c] + d][1..] == a[1..][c - 1 := a[c] + d];
      DotUpdate(a[1..], b[1..], c - 1, d);
    }
  }

  lemma {:induction false} DotComm(a: seq<real>, b: seq<real>)
    requires |a| == |b|
    ensures Dot(a, b) == Dot(b, a)
  {
    if |a| > 0 {
      DotComm(a[1..], b[1..]);
    }
  }

  /** The dot product distributes over a difference on the left. */
  lemma {:induction false} DotSub(a: seq<real>, b: seq<real>, y: seq<real>)
    requires |a| == |b| == |y|
    ensures Dot(Sub(a, b), y) == Dot(a, y) - Dot(b, y)
  {
    if |a| > 0 {
      assert Sub(a, b)[1..] == Sub(a[1..], b[1..]);
      DotSub(a[1..], b[1..], y[1..]);
    }
  }

  /** Entrywise sum a + b. */
  function Add(a: seq<real>, b: seq<real>): (r: seq<real>)
    requires |a| == |b|
    ensures |r| == |a| && forall i | 0 <= i < |a| :: r[i] == a[i] + b[i]
  {
    seq(|a|, i requires 0 <= i < |a| => a[i] + b[i])
  }

  /** The multiple s·a. */
  function Scale(s: real, a: seq<real>): (r: seq<real>)
    ensures |r| == |a| && forall i | 0 <= i < |a| :: r[i] == s * a[i]
  {
    seq(|a|, i requires 0 <= i < |a| => s * a[i])
  }

  lemma {:induction false} DotAdd(x: seq<real>, a: seq<real>, b: seq<real>)
    requires |x| == |a| == |b|
    ensures Dot(x, Add(a, b)) == Dot(x, a) + Dot(x, b)
  {
    if |x| > 0 {
      assert Add(a, b)[1..] == Add(a[1..], b[1..]);
      DotAdd(x[1..], a[1..], b[1..]);
    }
  }

  lemma {:induction false} DotScale(x: seq<real>, s: real, a: seq<real>)
    requires |x| == |a|
    ensures Dot(x, Scale(s, a)) == s * Dot(x, a)
  {
    if |x| > 0 {
      assert forall i | 0 <= i < |a| - 1 :: Scale(s, a)[1..][i] == Scale(s, a[1..])[i];
      assert Scale(s, a)[1..] == Scale(s, a[1..]);
      DotScale(x[1..], s, a[1..]);
      assert x[0] * (s * a[0]) == s * (x[0] * a[0]);
    }
  }

  /** A dot product whose every term is non-negative is non-negative. */
  lemma {:induction false} DotTermsNonNegative(a: seq<real>, b: seq<real>)
    requires |a| == |b| && forall i | 0 <= i < |a| :: a[i] * b[i] >= 0.0
    ensures Dot(a, b) >= 0.0
  {
    if |a| > 0 {
      assert a[0] * b[0] >= 0.0;
      assert forall i | 0 <= i < |a| - 1 :: a[1..][i] * b[1..][i] == a[i + 1] * b[i + 1];
      DotTermsNonNegative(a[1..], b[1..]);
    }
  }

  /** A matrix as its rows, each of t entries. */
  predicate IsMatrix(F: seq<seq<real>>, t: nat) {
    forall i | 0 <= i < |F| :: |F[i]| == t
  }

  /** The matrix-vector product F·x. */
  function MatVec(F: seq<seq<real>>, t: nat, x: seq<real>): (r: seq<real>)
    requires IsMatrix(F, t) && |x| == t
    ensures |r| == |F| && forall i | 0 <= i < |F| :: r[i] == Dot(F[i], x)
  {
    seq(|F|, i requires 0 <= i < |F| => Dot(F[i], x))
  }

  /** Column j of F. */
  function Column(F: seq<seq<real>>, t: nat, j: nat): (r: seq<real>)
    requires IsMatrix(F, t) && j < t
    ensures |r| == |F| && forall i | 0 <= i < |F| :: r[i] == F[i][j]
  {
    seq(|F|, i requires 0 <= i < |F| => F[i][j])
  }

  /** The product Fᵀ·y, built as the sum of the rows scaled by y. */
  function TransposeVec(F: seq<seq<real>>, t: nat, y: seq<real>): (r: seq<real>)
    requires IsMatrix(F, t) && |y| == |F|
    ensures |r| == t
    decreases |F|
  {
    if |F| == 0 then Zeros(t) else Add(Scale(y[0], F[0]), TransposeVec(F[1..], t, y[1..]))
  }

  /** Entry j of Fᵀ·y is column j of F dotted with y. */
  lemma {:induction false} TransposeVecColumns(F: seq<seq<real>>, t: nat, y: seq<real>)
    requires IsMatrix(F, t) && |y| == |F|
    ensures forall j | 0 <= j < t :: TransposeVec(F, t, y)[j] == Dot(Column(F, t, j), y)
    decreases |F|
  {
    if |F| > 0 {
      TransposeVecColumns(F[1..], t, y[1..]);
      forall j | 0 <= j < t
        ensures TransposeVec(F, t, y)[j] == Dot(Column(F, t, j), y)
      {
        assert Column(F, t, j)[1..] == Column(F[1..], t, j);
      }
    }
  }

  /** (F·x)·y == x·(Fᵀ·y): a sum over rows then columns is a sum over columns then rows. */
  lemma {:induction false} DotTranspose(F: seq<seq<real>>, t: nat, x: seq<real>, y: seq<real>)
    requires IsMatrix(F, t) && |x| == t && |y| == |F|
    ensures Dot(MatVec(F, t, x), y) == Dot(x, TransposeVec(F, t, y))
    decreases |F|
  {
    if |F| == 0 {
      DotComm(x, Zeros(t));
      DotZeros(x);
    } else {
      DotTranspose(F[1..], t, x, y[1..]);
      assert MatVec(F, t, x)[1..] == MatVec(F[1..], t, x);
      DotAdd(x, Scale(y[0], F[0]), TransposeVec(F[1..], t, y[1..]));
      DotScale(x, y[0], F[0]);
      DotComm(x, F[0]);
    }
  }
}
