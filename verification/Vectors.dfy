// Real vectors and matrices as values, and the algebra the solvers in cross.c rely on.
// A matrix is a sequence of rows; every operation names the dimensions it needs.
module Vectors {

  type Vector = seq<real>
  type Matrix = seq<Vector>

  function Times(a: real, b: real): real {
    a * b
  }

  /** The sum of u[t] * v[t] over t < k, in the order the C loops add it up. */
  ghost function Dot(u: Vector, v: Vector, k: nat): real
    requires k <= |u| && k <= |v|
  {
    if k == 0 then 0.0 else Dot(u, v, k - 1) + Times(u[k - 1], v[k - 1])
  }

  ghost predicate IsMatrix(M: Matrix, rows: nat, cols: nat) {
    |M| == rows && forall i :: 0 <= i < rows ==> |M[i]| == cols
  }

  ghost function Col(M: Matrix, j: nat): (v: Vector)
    requires forall i :: 0 <= i < |M| ==> j < |M[i]|
    ensures |v| == |M| && forall i :: 0 <= i < |M| ==> v[i] == M[i][j]
  {
    seq(|M|, i requires 0 <= i < |M| => M[i][j])
  }

  ghost function MatVec(M: Matrix, v: Vector): (r: Vector)
    requires forall i :: 0 <= i < |M| ==> |M[i]| == |v|
    ensures |r| == |M| && forall i :: 0 <= i < |M| ==> r[i] == Dot(M[i], v, |v|)
  {
    seq(|M|, i requires 0 <= i < |M| => Dot(M[i], v, |v|))
  }

  /** The row vector u M, using only the first k rows of M. */
  ghost function VecMatTo(u: Vector, M: Matrix, cols: nat, k: nat): (r: Vector)
    requires k <= |u| && k <= |M| && forall i :: 0 <= i < |M| ==> |M[i]| == cols
    ensures |r| == cols && forall j :: 0 <= j < cols ==> r[j] == Dot(u, Col(M, j), k)
  {
    seq(cols, j requires 0 <= j < cols => Dot(u, Col(M, j), k))
  }

  ghost function Mul(A: Matrix, B: Matrix, inner: nat, cols: nat): (C: Matrix)
    requires IsMatrix(A, |A|, inner) && IsMatrix(B, inner, cols)
    ensures IsMatrix(C, |A|, cols)
    ensures forall i, j :: 0 <= i < |A| && 0 <= j < cols ==> C[i][j] == Dot(A[i], Col(B, j), inner)
  {
    seq(|A|, i requires 0 <= i < |A| => VecMatTo(A[i], B, cols, inner))
  }

  ghost function Transpose(M: Matrix, rows: nat, cols: nat): (T: Matrix)
    requires IsMatrix(M, rows, cols)
    ensures IsMatrix(T, cols, rows)
    ensures forall i, j :: 0 <= i < cols && 0 <= j < rows ==> T[i][j] == M[j][i]
  {
    seq(cols, j requires 0 <= j < cols => Col(M, j))
  }

  ghost function Identity(n: nat): (I: Matrix)
    ensures IsMatrix(I, n, n)
    ensures forall i, j :: 0 <= i < n && 0 <= j < n ==> I[i][j] == if i == j then 1.0 else 0.0
  {
    seq(n, i requires 0 <= i < n => Unit(n, i))
  }

  ghost function Unit(n: nat, k: nat): (e: Vector)
    ensures |e| == n && forall i :: 0 <= i < n ==> e[i] == if i == k then 1.0 else 0.0
  {
    seq(n, i requires 0 <= i < n => if i == k then 1.0 else 0.0)
  }

  /** a M + b N, entry by entry. */
  ghost function Combine(a: real, M: Matrix, b: real, N: Matrix, rows: nat, cols: nat): (C: Matrix)
    requires IsMatrix(M, rows, cols) && IsMatrix(N, rows, cols)
    ensures IsMatrix(C, rows, cols)
    ensures forall i, j :: 0 <= i < rows && 0 <= j < cols ==> C[i][j] == a * M[i][j] + b * N[i][j]
  {
    seq(rows, i requires 0 <= i < rows => Axpby(a, M[i], b, N[i]))
  }

  ghost function Axpby(a: real, u: Vector, b: real, v: Vector): (w: Vector)
    requires |u| == |v|
    ensures |w| == |u| && forall i :: 0 <= i < |u| ==> w[i] == a * u[i] + b * v[i]
  {
    seq(|u|, i requires 0 <= i < |u| => a * u[i] + b * v[i])
  }

  ghost predicate IsInverse(A: Matrix, X: Matrix, n: nat)
    requires IsMatrix(A, n, n)
  {
    IsMatrix(X, n, n) && Mul(A, X, n, n) == Identity(n) && Mul(X, A, n, n) == Identity(n)
  }

  ghost predicate Invertible(A: Matrix, n: nat)
    requires IsMatrix(A, n, n)
  {
    exists X: Matrix :: IsInverse(A, X, n)
  }

  ghost predicate Symmetric(M: Matrix, n: nat)
    requires IsMatrix(M, n, n)
  {
    forall i, j :: 0 <= i < n && 0 <= j < n ==> M[i][j] == M[j][i]
  }

  // ---------- sums ----------

  lemma DotStep(u: Vector, v: Vector, k: nat)
    requires k < |u| && k < |v|
    ensures Dot(u, v, k + 1) == Dot(u, v, k) + Times(u[k], v[k])
  {
  }

  lemma {:induction false} DotFrame(u: Vector, v: Vector, u': Vector, v': Vector, k: nat)
    requires k <= |u| && k <= |v| && k <= |u'| && k <= |v'|
    requires forall t :: 0 <= t < k ==> u[t] == u'[t] && v[t] == v'[t]
    ensures Dot(u, v, k) == Dot(u', v', k)
  {
    hide Times;
    if k > 0 {
      DotFrame(u, v, u', v', k - 1);
    }
  }

  lemma {:induction false} DotCommutes(u: Vector, v: Vector, k: nat)
    requires k <= |u| && k <= |v|
    ensures Dot(u, v, k) == Dot(v, u, k)
  {
    if k > 0 {
      DotCommutes(u, v, k - 1);
    }
  }

  /** Linearity of the sum in its first argument. */
  lemma {:induction false} DotLinear(w: Vector, a: real, u: Vector, b: real, x: Vector, v: Vector, k: nat)
    requires k <= |w| && k <= |u| && k <= |x| && k <= |v|
    requires forall t :: 0 <= t < k ==> w[t] == a * u[t] + b * x[t]
    ensures Dot(w, v, k) == a * Dot(u, v, k) + b * Dot(x, v, k)
  {
    if k > 0 {
      DotLinear(w, a, u, b, x, v, k - 1);
      var p, q, r := u[k - 1], x[k - 1], v[k - 1];
      assert (a * p + b * q) * r == a * (p * r) + b * (q * r);
      var d, e := Dot(u, v, k - 1), Dot(x, v, k - 1);
      assert a * (d + p * r) + b * (e + q * r) == a * d + b * e + (a * (p * r) + b * (q * r));
    }
  }

  /** Entries with a zero factor on one side do not contribute. */
  lemma {:induction false} DotZeroTail(u: Vector, v: Vector, m: nat, k: nat)
    requires m <= k <= |u| && k <= |v|
    requires forall t :: m <= t < k ==> u[t] == 0.0 || v[t] == 0.0
    ensures Dot(u, v, k) == Dot(u, v, m)
  {
    if m < k {
      DotZeroTail(u, v, m, k - 1);
      assert u[k - 1] * v[k - 1] == 0.0;
    }
  }

  lemma {:induction false} DotUpdate(u: Vector, v: Vector, i: nat, x: real, k: nat)
    requires i < |v| && k <= |u| && k <= |v|
    ensures Dot(u, v[i := x], k) == Dot(u, v, k) + if i < k then u[i] * (x - v[i]) else 0.0
  {
    if k > 0 {
      DotUpdate(u, v, i, x, k - 1);
      if i == k - 1 {
        assert u[i] * x == u[i] * v[i] + u[i] * (x - v[i]);
      }
    }
  }

  lemma DotUnit(u: Vector, n: nat, i: nat)
    requires |u| == n && i < n
    ensures Dot(u, Unit(n, i), n) == u[i]
  {
    DotZeroTail(u, Unit(n, i), i + 1, n);
    DotZeroTail(u, Unit(n, i), 0, i);
  }

  // ---------- matrices ----------

  /** u (M v) == (u M) v, by induction on the number of rows used. */
  lemma {:induction false} DotAssociates(u: Vector, M: Matrix, v: Vector, k: nat)
    requires k <= |u| && k <= |M| && IsMatrix(M, |M|, |v|)
    ensures Dot(u, MatVec(M, v), k) == Dot(VecMatTo(u, M, |v|, k), v, |v|)
  {
    hide Dot;
    var c := |v|;
    var w := VecMatTo(u, M, c, k);
    if k == 0 {
      NoRows(u, M, v);
    } else {
      DotAssociates(u, M, v, k - 1);
      DotStep(u, MatVec(M, v), k - 1);
      RowStep(u, M, c, k - 1);
      DotLinear(w, 1.0, VecMatTo(u, M, c, k - 1), u[k - 1], M[k - 1], v, c);
    }
  }

  lemma NoRows(u: Vector, M: Matrix, v: Vector)
    requires IsMatrix(M, |M|, |v|)
    ensures Dot(u, MatVec(M, v), 0) == Dot(VecMatTo(u, M, |v|, 0), v, |v|)
  {
    DotZeroTail(VecMatTo(u, M, |v|, 0), v, 0, |v|);
  }

  /** One more row of M contributes a multiple of that row. */
  lemma RowStep(u: Vector, M: Matrix, cols: nat, k: nat)
    requires k < |u| && k < |M| && IsMatrix(M, |M|, cols)
    ensures forall j :: 0 <= j < cols ==>
      VecMatTo(u, M, cols, k + 1)[j] == 1.0 * VecMatTo(u, M, cols, k)[j] + u[k] * M[k][j]
  {
    hide Dot;
    forall j | 0 <= j < cols
      ensures VecMatTo(u, M, cols, k + 1)[j] == 1.0 * VecMatTo(u, M, cols, k)[j] + u[k] * M[k][j]
    {
      DotStep(u, Col(M, j), k);
    }
  }

  lemma MatrixEqual(A: Matrix, B: Matrix, rows: nat, cols: nat)
    requires IsMatrix(A, rows, cols) && IsMatrix(B, rows, cols)
    requires forall i, j :: 0 <= i < rows && 0 <= j < cols ==> A[i][j] == B[i][j]
    ensures A == B
  {
    forall i | 0 <= i < rows
      ensures A[i] == B[i]
    {
    }
  }

  /** Column j of a product is the left factor applied to column j of the right one. */
  lemma MulCol(A: Matrix, B: Matrix, inner: nat, cols: nat, j: nat)
    requires IsMatrix(A, |A|, inner) && IsMatrix(B, inner, cols) && j < cols
    ensures Col(Mul(A, B, inner, cols), j) == MatVec(A, Col(B, j))
  {
  }

  lemma MatVecAssociates(A: Matrix, B: Matrix, v: Vector, inner: nat)
    requires IsMatrix(A, |A|, inner) && IsMatrix(B, inner, |v|)
    ensures MatVec(Mul(A, B, inner, |v|), v) == MatVec(A, MatVec(B, v))
  {
    forall i | 0 <= i < |A|
      ensures Dot(Mul(A, B, inner, |v|)[i], v, |v|) == Dot(A[i], MatVec(B, v), inner)
    {
      DotAssociates(A[i], B, v, inner);
    }
  }

  lemma MulAssociates(A: Matrix, B: Matrix, C: Matrix, p: nat, q: nat, cols: nat)
    requires IsMatrix(A, |A|, p) && IsMatrix(B, p, q) && IsMatrix(C, q, cols)
    ensures Mul(Mul(A, B, p, q), C, q, cols) == Mul(A, Mul(B, C, q, cols), p, cols)
  {
    var L, R := Mul(Mul(A, B, p, q), C, q, cols), Mul(A, Mul(B, C, q, cols), p, cols);
    forall i, j | 0 <= i < |A| && 0 <= j < cols
      ensures L[i][j] == R[i][j]
    {
      MulCol(B, C, q, cols, j);
      DotAssociates(A[i], B, Col(C, j), p);
    }
    MatrixEqual(L, R, |A|, cols);
  }

  lemma MulIdentity(A: Matrix, rows: nat, n: nat)
    requires IsMatrix(A, rows, n)
    ensures Mul(A, Identity(n), n, n) == A
    ensures Mul(Identity(rows), A, rows, n) == A
  {
    var R, L := Mul(A, Identity(n), n, n), Mul(Identity(rows), A, rows, n);
    forall i, j | 0 <= i < rows && 0 <= j < n
      ensures R[i][j] == A[i][j] && L[i][j] == A[i][j]
    {
      assert Col(Identity(n), j) == Unit(n, j);
      DotUnit(A[i], n, j);
      assert Identity(rows)[i] == Unit(rows, i);
      DotCommutes(Unit(rows, i), Col(A, j), rows);
      DotUnit(Col(A, j), rows, i);
    }
    MatrixEqual(R, A, rows, n);
    MatrixEqual(L, A, rows, n);
  }

  lemma MatVecUnit(A: Matrix, rows: nat, n: nat, j: nat)
    requires IsMatrix(A, rows, n) && j < n
    ensures MatVec(A, Unit(n, j)) == Col(A, j)
  {
    forall i | 0 <= i < rows
      ensures Dot(A[i], Unit(n, j), n) == A[i][j]
    {
      DotUnit(A[i], n, j);
    }
  }

  lemma MatVecLinear(A: Matrix, rows: nat, a: real, u: Vector, b: real, v: Vector)
    requires |u| == |v| && IsMatrix(A, rows, |u|)
    ensures MatVec(A, Axpby(a, u, b, v)) == Axpby(a, MatVec(A, u), b, MatVec(A, v))
  {
    var w, n := Axpby(a, u, b, v), |u|;
    var L, R := MatVec(A, w), Axpby(a, MatVec(A, u), b, MatVec(A, v));
    forall i | 0 <= i < rows
      ensures L[i] == R[i]
    {
      DotCommutes(A[i], w, n);
      DotCommutes(A[i], u, n);
      DotCommutes(A[i], v, n);
      DotLinear(w, a, u, b, v, A[i], n);
    }
  }

  lemma TransposeMul(A: Matrix, B: Matrix, rows: nat, inner: nat, cols: nat)
    requires IsMatrix(A, rows, inner) && IsMatrix(B, inner, cols)
    ensures Transpose(Mul(A, B, inner, cols), rows, cols)
         == Mul(Transpose(B, inner, cols), Transpose(A, rows, inner), inner, rows)
  {
    var At, Bt := Transpose(A, rows, inner), Transpose(B, inner, cols);
    var L, R := Transpose(Mul(A, B, inner, cols), rows, cols), Mul(Bt, At, inner, rows);
    forall j, i | 0 <= j < cols && 0 <= i < rows
      ensures L[j][i] == R[j][i]
    {
      assert Bt[j] == Col(B, j);
      assert Col(At, i) == A[i];
      DotCommutes(A[i], Col(B, j), inner);
    }
    MatrixEqual(L, R, cols, rows);
  }

  lemma TransposeTwice(A: Matrix, rows: nat, cols: nat)
    requires IsMatrix(A, rows, cols)
    ensures Transpose(Transpose(A, rows, cols), cols, rows) == A
  {
    MatrixEqual(Transpose(Transpose(A, rows, cols), cols, rows), A, rows, cols);
  }

  lemma SymmetricIsTranspose(M: Matrix, n: nat)
    requires IsMatrix(M, n, n)
    ensures Symmetric(M, n) <==> Transpose(M, n, n) == M
  {
    if Symmetric(M, n) {
      MatrixEqual(Transpose(M, n, n), M, n, n);
    }
  }

  lemma InverseUnique(A: Matrix, X: Matrix, Y: Matrix, n: nat)
    requires IsMatrix(A, n, n) && IsInverse(A, X, n) && IsInverse(A, Y, n)
    ensures X == Y
  {
    MulAssociates(X, A, Y, n, n, n);
    MulIdentity(X, n, n);
    MulIdentity(Y, n, n);
  }

  lemma InverseTranspose(A: Matrix, X: Matrix, n: nat)
    requires IsMatrix(A, n, n) && IsInverse(A, X, n)
    ensures IsInverse(Transpose(A, n, n), Transpose(X, n, n), n)
  {
    TransposeMul(A, X, n, n, n);
    TransposeMul(X, A, n, n, n);
    SymmetricIsTranspose(Identity(n), n);
  }
}
