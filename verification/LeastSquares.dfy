// Least squares by the normal equations, and why the answer is the best one.
module LeastSquares {
  import opened Vectors
  import opened Grids
  import opened LuSolver

  /** The squared length of A' z - y, for A stored as n x m. */
  ghost function Cost(A: Matrix, n: nat, m: nat, z: Vector, y: Vector): real
    requires IsMatrix(A, n, m) && |z| == n && |y| == m
  {
    var r := Axpby(1.0, MatVec(Transpose(A, n, m), z), -1.0, y);
    Dot(r, r, m)
  }

  ghost function Gram(A: Matrix, n: nat, m: nat): (G: Matrix)
    requires IsMatrix(A, n, m)
    ensures IsMatrix(G, n, n)
  {
    Mul(A, Transpose(A, n, m), m, n)
  }

  lemma {:induction false} SquareSum(u: Vector, k: nat)
    requires k <= |u|
    ensures Dot(u, u, k) >= 0.0
    ensures Dot(u, u, k) == 0.0 ==> forall t :: 0 <= t < k ==> u[t] == 0.0
  {
    hide Times;
    if k > 0 {
      SquareSum(u, k - 1);
      Square(u[k - 1]);
    }
  }

  lemma Square(x: real)
    ensures Times(x, x) >= 0.0 && (x == 0.0 || Times(x, x) > 0.0)
  {
    hide Times;
    if x > 0.0 {
      PositiveProduct(x, x);
    } else if x < 0.0 {
      NegativeProduct(x, x);
    } else {
      ZeroProduct(x);
    }
  }

  lemma ZeroProduct(a: real)
    ensures Times(0.0, a) == 0.0
  {
  }

  lemma PositiveProduct(a: real, b: real)
    requires a > 0.0 && b > 0.0
    ensures Times(a, b) > 0.0
  {
  }

  lemma NegativeProduct(a: real, b: real)
    requires a < 0.0 && b < 0.0
    ensures Times(a, b) > 0.0
  {
    PositiveProduct(-a, -b);
  }

  lemma DotSum(s: Vector, r: Vector, w: Vector, v: Vector, m: nat)
    requires |s| == |r| == |w| == |v| == m && forall t :: 0 <= t < m ==> s[t] == r[t] + w[t]
    ensures Dot(s, v, m) == Dot(r, v, m) + Dot(w, v, m)
  {
    hide Dot;
    DotLinear(s, 1.0, r, 1.0, w, v, m);
  }

  lemma SquareOfSum(s: Vector, r: Vector, w: Vector, m: nat)
    requires |s| == |r| == |w| == m && forall t :: 0 <= t < m ==> s[t] == r[t] + w[t]
    ensures Dot(s, s, m) == Dot(r, r, m) + 2.0 * Dot(r, w, m) + Dot(w, w, m)
  {
    hide Dot;
    DotSum(s, r, w, s, m);
    DotSum(s, r, w, r, m);
    DotSum(s, r, w, w, m);
    DotCommutes(r, s, m);
    DotCommutes(w, s, m);
    DotCommutes(w, r, m);
  }

  /** A residual orthogonal to the rows of A is orthogonal to every A' d. */
  lemma Orthogonal(A: Matrix, n: nat, m: nat, r: Vector, d: Vector)
    requires IsMatrix(A, n, m) && |r| == m && |d| == n
    requires forall i :: 0 <= i < n ==> Dot(A[i], r, m) == 0.0
    ensures Dot(r, MatVec(Transpose(A, n, m), d), m) == 0.0
  {
    var At := Transpose(A, n, m);
    var w := VecMatTo(r, At, n, m);
    DotAssociates(r, At, d, m);
    forall j | 0 <= j < n
      ensures w[j] == 0.0
    {
      assert Col(At, j) == A[j];
      DotCommutes(A[j], r, m);
    }
    DotZeroTail(w, d, 0, n);
  }

  /** What the normal equations say: the residual is orthogonal to every row of A. */
  lemma ResidualOrthogonal(A: Matrix, n: nat, m: nat, x: Vector, y: Vector)
    requires IsMatrix(A, n, m) && |x| == n && |y| == m
    requires MatVec(Gram(A, n, m), x) == MatVec(A, y)
    ensures var r := Axpby(1.0, MatVec(Transpose(A, n, m), x), -1.0, y);
      forall i :: 0 <= i < n ==> Dot(A[i], r, m) == 0.0
  {
    var At := Transpose(A, n, m);
    var p := MatVec(At, x);
    MatVecAssociates(A, At, x, m);
    MatVecLinear(A, n, 1.0, p, -1.0, y);
    var r := Axpby(1.0, p, -1.0, y);
    forall i | 0 <= i < n
      ensures Dot(A[i], r, m) == 0.0
    {
      assert MatVec(A, r)[i] == 1.0 * MatVec(A, p)[i] + -1.0 * MatVec(A, y)[i];
    }
  }

  /** A solution of the normal equations costs less than any other point, by |A'(z - x)| squared. */
  lemma CostSplits(A: Matrix, n: nat, m: nat, x: Vector, y: Vector, z: Vector)
    requires IsMatrix(A, n, m) && |x| == |z| == n && |y| == m
    requires MatVec(Gram(A, n, m), x) == MatVec(A, y)
    ensures var w := MatVec(Transpose(A, n, m), Axpby(1.0, z, -1.0, x));
      Cost(A, n, m, z, y) == Cost(A, n, m, x, y) + Dot(w, w, m)
  {
    var At := Transpose(A, n, m);
    var d := Axpby(1.0, z, -1.0, x);
    var w := MatVec(At, d);
    var r := Axpby(1.0, MatVec(At, x), -1.0, y);
    var s := Axpby(1.0, MatVec(At, z), -1.0, y);
    MatVecLinear(At, m, 1.0, z, -1.0, x);
    forall t | 0 <= t < m
      ensures s[t] == r[t] + w[t]
    {
      assert w[t] == 1.0 * MatVec(At, z)[t] + -1.0 * MatVec(At, x)[t];
    }
    ResidualOrthogonal(A, n, m, x, y);
    Orthogonal(A, n, m, r, d);
    SquareOfSum(s, r, w, m);
  }

  /** With an invertible Gram matrix the solution is the one and only minimum. */
  lemma NormalEquationsOptimal(A: Matrix, n: nat, m: nat, x: Vector, y: Vector, z: Vector)
    requires IsMatrix(A, n, m) && |x| == |z| == n && |y| == m
    requires MatVec(Gram(A, n, m), x) == MatVec(A, y) && Invertible(Gram(A, n, m), n)
    ensures Cost(A, n, m, z, y) >= Cost(A, n, m, x, y)
    ensures Cost(A, n, m, z, y) == Cost(A, n, m, x, y) <==> z == x
  {
    var At := Transpose(A, n, m);
    var d := Axpby(1.0, z, -1.0, x);
    var w := MatVec(At, d);
    CostSplits(A, n, m, x, y, z);
    SquareSum(w, m);
    if Dot(w, w, m) == 0.0 {
      var X :| IsInverse(Gram(A, n, m), X, n);
      MatVecAssociates(A, At, d, m);
      MatVecAssociates(X, Gram(A, n, m), d, n);
      forall i | 0 <= i < n
        ensures z[i] == x[i]
      {
        forall k | 0 <= k < n
          ensures MatVec(A, w)[k] == 0.0
        {
          DotZeroTail(A[k], w, 0, m);
        }
        DotZeroTail(X[i], MatVec(A, w), 0, n);
        IdentityRow(d, n, i);
        assert MatVec(X, MatVec(Gram(A, n, m), d))[i] == MatVec(Identity(n), d)[i];
        assert d[i] == 1.0 * z[i] + -1.0 * x[i];
      }
    }
  }

  lemma IdentityRow(d: Vector, n: nat, i: nat)
    requires |d| == n && i < n
    ensures MatVec(Identity(n), d)[i] == d[i]
  {
    assert Identity(n)[i] == Unit(n, i);
    DotCommutes(Unit(n, i), d, n);
    DotUnit(d, n, i);
  }

  /** x = (A A')^-1 A y and Q = (A A')^-1; refused for fewer measurements than parameters. */
  method Lsq(A: array<real>, y: array<real>, n: nat, m: nat, x: array<real>, Q: array<real>) returns (info: int)
    requires A.Length == n * m && y.Length == m && x.Length == n && Q.Length == n * n
    requires x != A && x != y && Q != A && Q != y && x != Q
    modifies x, Q
    ensures info == 0 || info == -1
    ensures info == 0 <==> n <= m && Invertible(Gram(Grid(A[..], n, m), n, m), n)
    ensures info == 0 ==> IsInverse(Gram(Grid(A[..], n, m), n, m), Grid(Q[..], n, n), n)
    ensures info == 0 ==> MatVec(Gram(Grid(A[..], n, m), n, m), x[..]) == MatVec(Grid(A[..], n, m), y[..])
    ensures info == 0 ==> forall z: Vector :: |z| == n ==>
      Cost(Grid(A[..], n, m), n, m, z, y[..]) >= Cost(Grid(A[..], n, m), n, m, x[..], y[..])
    ensures info != 0 ==> x[..] == old(x[..])
  {
    if m < n {
      return -1;
    }
    ghost var M := Grid(A[..], n, m);
    var Ay := new real[n];
    ghost var C := Grid(Ay[..], n, 1);
    Matmul("NN", n, 1, m, 1.0, A, y, 0.0, Ay);
    PlainProduct(Mul(M, Grid(y[..], m, 1), m, 1), C, n, 1);
    ColumnProduct(M, y[..], Ay[..], n, m);
    C := Grid(Q[..], n, n);
    Matmul("NT", n, n, m, 1.0, A, A, 0.0, Q);
    PlainProduct(Gram(M, n, m), C, n, n);
    ghost var g := Gram(M, n, m);
    info := Matinv(Q, n);
    if info == 0 {
      ghost var X := Grid(Q[..], n, n);
      C := Grid(x[..], n, 1);
      Matmul("NN", n, 1, n, 1.0, Q, Ay, 0.0, x);
      PlainProduct(Mul(X, Grid(Ay[..], n, 1), n, 1), C, n, 1);
      ColumnProduct(X, Ay[..], x[..], n, n);
      InverseSolves(g, X, Ay[..], n);
      forall z: Vector | |z| == n
        ensures Cost(M, n, m, z, y[..]) >= Cost(M, n, m, x[..], y[..])
      {
        NormalEquationsOptimal(M, n, m, x[..], y[..], z);
      }
    }
  }

  lemma InverseSolves(G: Matrix, X: Matrix, b: Vector, n: nat)
    requires IsMatrix(G, n, n) && |b| == n && IsInverse(G, X, n)
    ensures MatVec(G, MatVec(X, b)) == b
  {
    MatVecAssociates(G, X, b, n);
    forall i | 0 <= i < n
      ensures MatVec(Identity(n), b)[i] == b[i]
    {
      IdentityRow(b, n, i);
    }
  }
}
