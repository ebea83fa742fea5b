// What the packed array left behind by the Crout reduction of cross.c means: a factorisation of
// the row-permuted input, or, when a pivot is zero, a proof that the input has no inverse.
module LuTheory {
  import opened Vectors

  // ---------- row interchanges ----------

  ghost function Swap<T>(s: seq<T>, a: nat, b: nat): (r: seq<T>)
    requires a < |s| && b < |s|
    ensures |r| == |s| && r[a] == s[b] && r[b] == s[a]
    ensures forall i :: 0 <= i < |s| && i != a && i != b ==> r[i] == s[i]
  {
    s[a := s[b]][b := s[a]]
  }

  /** The first k recorded interchanges move row j to a place at or below it. */
  ghost predicate ValidSwaps(idx: seq<int>, n: nat, k: nat) {
    k <= n && k <= |idx| && forall j :: 0 <= j < k ==> j <= idx[j] < n
  }

  /** Interchange 0 with idx[0], then 1 with idx[1], and so on, k times. */
  ghost function ApplySwaps<T>(s: seq<T>, idx: seq<int>, k: nat): (r: seq<T>)
    requires ValidSwaps(idx, |s|, k)
    ensures |r| == |s|
  {
    if k == 0 then s else Swap(ApplySwaps(s, idx, k - 1), k - 1, idx[k - 1])
  }

  ghost function SwapSign(idx: seq<int>, k: nat): real
    requires k <= |idx|
  {
    if k == 0 then 1.0 else if idx[k - 1] == k - 1 then SwapSign(idx, k - 1) else -SwapSign(idx, k - 1)
  }

  lemma {:induction false} SwapSignFrame(idx: seq<int>, idx': seq<int>, k: nat)
    requires k <= |idx| && k <= |idx'| && idx[..k] == idx'[..k]
    ensures SwapSign(idx, k) == SwapSign(idx', k)
  {
    if k > 0 {
      assert idx[..k - 1] == idx[..k][..k - 1] && idx'[..k - 1] == idx'[..k][..k - 1];
      assert idx[k - 1] == idx[..k][k - 1] == idx'[k - 1];
      SwapSignFrame(idx, idx', k - 1);
    }
  }

  lemma {:induction false} SwapsFrame<T>(s: seq<T>, idx: seq<int>, idx': seq<int>, k: nat)
    requires ValidSwaps(idx, |s|, k) && ValidSwaps(idx', |s|, k) && idx[..k] == idx'[..k]
    ensures ApplySwaps(s, idx, k) == ApplySwaps(s, idx', k)
  {
    if k > 0 {
      assert idx[..k - 1] == idx[..k][..k - 1] && idx'[..k - 1] == idx'[..k][..k - 1];
      assert idx[k - 1] == idx[..k][k - 1] == idx'[k - 1];
      SwapsFrame(s, idx, idx', k - 1);
    }
  }

  /** Row i is settled once interchange i has been made. */
  lemma {:induction false} SwapsStable<T>(s: seq<T>, idx: seq<int>, i: nat, k: nat)
    requires ValidSwaps(idx, |s|, k) && i < k
    ensures ApplySwaps(s, idx, k)[i] == ApplySwaps(s, idx, i + 1)[i]
  {
    if i + 1 < k {
      SwapsStable(s, idx, i, k - 1);
    }
  }

  lemma {:induction false} SwapsInjective<T>(s: seq<T>, t: seq<T>, idx: seq<int>, k: nat)
    requires |s| == |t| && ValidSwaps(idx, |s|, k)
    requires ApplySwaps(s, idx, k) == ApplySwaps(t, idx, k)
    ensures s == t
  {
    if k > 0 {
      var p, q := ApplySwaps(s, idx, k - 1), ApplySwaps(t, idx, k - 1);
      var a, b := k - 1, idx[k - 1];
      assert Swap(p, a, b) == Swap(q, a, b);
      forall i | 0 <= i < |p|
        ensures p[i] == q[i]
      {
        assert p[i] == Swap(p, a, b)[if i == a then b else if i == b then a else i];
      }
      SwapsInjective(s, t, idx, k - 1);
    }
  }

  lemma {:induction false} SwapsMatVec(A: Matrix, v: Vector, idx: seq<int>, k: nat)
    requires IsMatrix(A, |v|, |v|) && ValidSwaps(idx, |v|, k)
    ensures IsMatrix(ApplySwaps(A, idx, k), |v|, |v|)
    ensures MatVec(ApplySwaps(A, idx, k), v) == ApplySwaps(MatVec(A, v), idx, k)
  {
    if k > 0 {
      SwapsMatVec(A, v, idx, k - 1);
    }
  }

  // ---------- the packed factors ----------

  /** The unit lower factor held below the diagonal of G, restricted to its first j columns. */
  ghost function Lower(G: Matrix, n: nat, j: nat): (L: Matrix)
    requires IsMatrix(G, n, n)
    ensures IsMatrix(L, n, n)
    ensures forall i, t :: 0 <= i < n && 0 <= t < n ==>
      L[i][t] == if t >= j || t > i then 0.0 else if t == i then 1.0 else G[i][t]
  {
    seq(n, i requires 0 <= i < n => LowerRow(G[i], n, j, i))
  }

  ghost function LowerRow(g: Vector, n: nat, j: nat, i: nat): (l: Vector)
    requires |g| == n
    ensures |l| == n && forall t :: 0 <= t < n ==>
      l[t] == if t >= j || t > i then 0.0 else if t == i then 1.0 else g[t]
  {
    seq(n, t requires 0 <= t < n => if t >= j || t > i then 0.0 else if t == i then 1.0 else g[t])
  }

  /** The upper factor held on and above the diagonal of G. */
  ghost function Upper(G: Matrix, n: nat): (U: Matrix)
    requires IsMatrix(G, n, n)
    ensures IsMatrix(U, n, n)
    ensures forall t, c :: 0 <= t < n && 0 <= c < n ==> U[t][c] == if t <= c then G[t][c] else 0.0
  {
    seq(n, t requires 0 <= t < n => UpperRow(G[t], n, t))
  }

  ghost function UpperRow(g: Vector, n: nat, t: nat): (u: Vector)
    requires |g| == n
    ensures |u| == n && forall c :: 0 <= c < n ==> u[c] == if t <= c then g[c] else 0.0
  {
    seq(n, c requires 0 <= c < n => if t <= c then g[c] else 0.0)
  }

  ghost function Min(a: nat, b: nat): nat {
    if a < b then a else b
  }

  /** Entry (i, j) has been reduced but column j is not scaled yet. */
  ghost predicate Half(G: Matrix, R: Matrix, n: nat, i: nat, j: nat)
    requires IsMatrix(G, n, n) && IsMatrix(R, n, n) && i < n && j < n
  {
    R[i][j] == Dot(G[i], Col(G, j), Min(i, j)) + G[i][j]
  }

  /** Entry (i, c) of R is the product of row i of the lower and column c of the upper factor. */
  ghost predicate Done(G: Matrix, R: Matrix, n: nat, i: nat, c: nat)
    requires IsMatrix(G, n, n) && IsMatrix(R, n, n) && i < n && c < n
  {
    R[i][c] == Dot(G[i], Col(G, c), Min(i, c)) + G[i][c] * (if i <= c then 1.0 else G[c][c])
  }

  /** The first j columns are factored, the others still hold the permuted input. */
  ghost predicate Reduced(G: Matrix, R: Matrix, n: nat, j: nat) {
    && IsMatrix(G, n, n) && IsMatrix(R, n, n) && j <= n
    && (forall i, c :: 0 <= i < n && 0 <= c < j ==> Done(G, R, n, i, c))
    && (forall k :: 0 <= k < j ==> G[k][k] != 0.0)
  }

  ghost predicate Untouched(G: Matrix, R: Matrix, n: nat, j: nat)
    requires IsMatrix(G, n, n) && IsMatrix(R, n, n)
  {
    forall i, c :: 0 <= i < n && j <= c < n ==> G[i][c] == R[i][c]
  }

  ghost predicate Factored(G: Matrix, A: Matrix, idx: seq<int>, n: nat) {
    && IsMatrix(A, n, n) && ValidSwaps(idx, n, n)
    && Reduced(G, ApplySwaps(A, idx, n), n, n)
  }

  /** Changes confined to columns j and beyond keep the first j columns reduced. */
  lemma ReducedFrame(G: Matrix, G': Matrix, R: Matrix, n: nat, j: nat)
    requires Reduced(G, R, n, j) && IsMatrix(G', n, n)
    requires forall i, c :: 0 <= i < n && 0 <= c < j ==> G[i][c] == G'[i][c]
    ensures Reduced(G', R, n, j)
  {
    forall i, c | 0 <= i < n && 0 <= c < j
      ensures Done(G', R, n, i, c)
    {
      assert Done(G, R, n, i, c);
      DotFrame(G[i], Col(G, c), G'[i], Col(G', c), Min(i, c));
    }
  }

  lemma SwapReduced(G: Matrix, R: Matrix, n: nat, j: nat, p: nat)
    requires Reduced(G, R, n, j) && j <= p < n
    ensures Reduced(Swap(G, j, p), Swap(R, j, p), n, j)
  {
    hide Dot;
    var G', R' := Swap(G, j, p), Swap(R, j, p);
    forall i, c | 0 <= i < n && 0 <= c < j
      ensures Done(G', R', n, i, c)
    {
      var o := if i == j then p else if i == p then j else i;
      assert Done(G, R, n, o, c);
      DotFrame(G[o], Col(G, c), G'[i], Col(G', c), Min(i, c));
    }
  }

  lemma SwapHalf(G: Matrix, R: Matrix, n: nat, j: nat, p: nat)
    requires IsMatrix(G, n, n) && IsMatrix(R, n, n) && j <= p < n
    requires forall i :: 0 <= i < n ==> Half(G, R, n, i, j)
    ensures forall i :: 0 <= i < n ==> Half(Swap(G, j, p), Swap(R, j, p), n, i, j)
  {
    var G', R' := Swap(G, j, p), Swap(R, j, p);
    forall i | 0 <= i < n
      ensures Half(G', R', n, i, j)
    {
      var o := if i == j then p else if i == p then j else i;
      assert Half(G, R, n, o, j);
      DotFrame(G[o], Col(G, j), G'[i], Col(G', j), Min(i, j));
    }
  }

  // ---------- the factors multiply to the permuted input ----------

  lemma ProductEntry(G: Matrix, R: Matrix, n: nat, j: nat, i: nat, c: nat)
    requires IsMatrix(G, n, n) && IsMatrix(R, n, n) && i < n && c < n && j <= n
    requires c < j ==> Done(G, R, n, i, c)
    requires c >= j ==> c == j && Half(G, R, n, i, c) && (i >= j ==> G[i][j] == 0.0)
    ensures R[i][c] == Dot(Lower(G, n, j)[i], Col(Upper(G, n), c), n)
  {
    hide Dot;
    var l, u, m := LowerRow(G[i], n, j, i), Col(Upper(G, n), c), Min(i, c);
    DotFrame(l, u, G[i], Col(G, c), m);
    DotZeroTail(l, u, m + 1, n);
    DotStep(l, u, m);
    assert Lower(G, n, j)[i] == l;
    PivotTerm(G, n, j, i, c);
  }

  /** The last product that contributes to entry (i, c). */
  lemma PivotTerm(G: Matrix, n: nat, j: nat, i: nat, c: nat)
    requires IsMatrix(G, n, n) && i < n && c < n && c <= j <= n
    requires c == j && i >= j ==> G[i][j] == 0.0
    ensures LowerRow(G[i], n, j, i)[Min(i, c)] * Col(Upper(G, n), c)[Min(i, c)]
         == if i <= c then G[i][c] else if c < j then G[i][c] * G[c][c] else 0.0
  {
    if i <= c {
      assert Col(Upper(G, n), c)[i] == G[i][c];
    } else {
      assert Col(Upper(G, n), c)[c] == G[c][c];
    }
  }

  lemma ProductIsInput(G: Matrix, R: Matrix, n: nat)
    requires Reduced(G, R, n, n)
    ensures R == Mul(Lower(G, n, n), Upper(G, n), n, n)
  {
    forall i, c | 0 <= i < n && 0 <= c < n
      ensures R[i][c] == Mul(Lower(G, n, n), Upper(G, n), n, n)[i][c]
    {
      assert Done(G, R, n, i, c);
      ProductEntry(G, R, n, n, i, c);
    }
    MatrixEqual(R, Mul(Lower(G, n, n), Upper(G, n), n, n), n, n);
  }

  /** Forward then backward substitution through the factors solves the original system. */
  lemma SubstitutionSolves(G: Matrix, A: Matrix, idx: seq<int>, n: nat, b: Vector, y: Vector, x: Vector)
    requires Factored(G, A, idx, n) && |b| == |y| == |x| == n
    requires MatVec(Lower(G, n, n), y) == ApplySwaps(b, idx, n)
    requires MatVec(Upper(G, n), x) == y
    ensures MatVec(A, x) == b
  {
    var R := ApplySwaps(A, idx, n);
    ProductIsInput(G, R, n);
    MatVecAssociates(Lower(G, n, n), Upper(G, n), x, n);
    SwapsMatVec(A, x, idx, n);
    SwapsInjective(MatVec(A, x), b, idx, n);
  }

  ghost function Zeros(n: nat): (z: Vector)
    ensures |z| == n && forall i :: 0 <= i < n ==> z[i] == 0.0
  {
    seq(n, i => 0.0)
  }

  lemma {:induction false} SwapsZeros(n: nat, idx: seq<int>, k: nat)
    requires ValidSwaps(idx, n, k)
    ensures ApplySwaps(Zeros(n), idx, k) == Zeros(n)
  {
    if k > 0 {
      SwapsZeros(n, idx, k - 1);
    }
  }

  lemma {:induction false} LowerKernel(G: Matrix, n: nat, y: Vector, i: nat)
    requires IsMatrix(G, n, n) && |y| == n && i <= n
    requires MatVec(Lower(G, n, n), y) == Zeros(n)
    ensures forall t :: 0 <= t < i ==> y[t] == 0.0
  {
    if i > 0 {
      LowerKernel(G, n, y, i - 1);
      var l := Lower(G, n, n)[i - 1];
      assert Dot(l, y, n) == 0.0;
      DotZeroTail(l, y, i, n);
      DotZeroTail(l, y, 0, i - 1);
    }
  }

  lemma {:induction false} UpperKernel(G: Matrix, n: nat, x: Vector, i: nat)
    requires IsMatrix(G, n, n) && |x| == n && i <= n
    requires forall k :: 0 <= k < n ==> G[k][k] != 0.0
    requires MatVec(Upper(G, n), x) == Zeros(n)
    ensures forall t :: i <= t < n ==> x[t] == 0.0
    decreases n - i
  {
    if i < n {
      UpperKernel(G, n, x, i + 1);
      var u := Upper(G, n)[i];
      assert Dot(u, x, n) == 0.0;
      DotZeroTail(u, x, i + 1, n);
      DotZeroTail(u, x, 0, i);
      assert u[i] * x[i] == 0.0;
    }
  }

  /** A factored matrix is one-to-one. */
  lemma FactoredInjective(G: Matrix, A: Matrix, idx: seq<int>, n: nat, u: Vector, w: Vector)
    requires Factored(G, A, idx, n) && |u| == |w| == n
    requires MatVec(A, u) == MatVec(A, w)
    ensures u == w
  {
    var d := Axpby(1.0, u, -1.0, w);
    MatVecLinear(A, n, 1.0, u, -1.0, w);
    assert MatVec(A, d) == Zeros(n);
    SwapsMatVec(A, d, idx, n);
    SwapsZeros(n, idx, n);
    ProductIsInput(G, ApplySwaps(A, idx, n), n);
    var y := MatVec(Upper(G, n), d);
    MatVecAssociates(Lower(G, n, n), Upper(G, n), d, n);
    LowerKernel(G, n, y, n);
    assert y == Zeros(n);
    UpperKernel(G, n, d, 0);
    forall i | 0 <= i < n
      ensures u[i] == w[i]
    {
      assert d[i] == 0.0;
    }
  }

  /** For a factored matrix a right inverse is the inverse. */
  lemma RightInverseIsInverse(G: Matrix, A: Matrix, idx: seq<int>, n: nat, X: Matrix)
    requires Factored(G, A, idx, n) && IsMatrix(X, n, n)
    requires forall j :: 0 <= j < n ==> MatVec(A, Col(X, j)) == Unit(n, j)
    ensures IsInverse(A, X, n)
  {
    forall i, j | 0 <= i < n && 0 <= j < n
      ensures Mul(A, X, n, n)[i][j] == Identity(n)[i][j]
    {
      assert MatVec(A, Col(X, j))[i] == Unit(n, j)[i];
    }
    MatrixEqual(Mul(A, X, n, n), Identity(n), n, n);
    var Z := Mul(X, A, n, n);
    MulAssociates(A, X, A, n, n, n);
    MulIdentity(A, n, n);
    forall j | 0 <= j < n
      ensures Col(Z, j) == Unit(n, j)
    {
      MulCol(A, Z, n, n, j);
      MatVecUnit(A, n, n, j);
      FactoredInjective(G, A, idx, n, Col(Z, j), Unit(n, j));
    }
    forall i, j | 0 <= i < n && 0 <= j < n
      ensures Z[i][j] == Identity(n)[i][j]
    {
      assert Col(Z, j)[i] == Unit(n, j)[i];
    }
    MatrixEqual(Z, Identity(n), n, n);
  }

  // ---------- why a failure is justified ----------

  lemma ZeroRowNotInvertible(A: Matrix, n: nat, i: nat)
    requires IsMatrix(A, n, n) && i < n && forall j :: 0 <= j < n ==> A[i][j] == 0.0
    ensures !Invertible(A, n)
  {
    forall X: Matrix | IsMatrix(X, n, n)
      ensures Mul(A, X, n, n)[i][i] != Identity(n)[i][i]
    {
      DotZeroTail(A[i], Col(X, i), 0, n);
    }
  }

  lemma KernelNotInvertible(A: Matrix, n: nat, z: Vector, j: nat)
    requires IsMatrix(A, n, n) && |z| == n && j < n && z[j] != 0.0
    requires MatVec(A, z) == Zeros(n)
    ensures !Invertible(A, n)
  {
    forall X: Matrix | IsMatrix(X, n, n)
      ensures MatVec(Mul(X, A, n, n), z)[j] != MatVec(Identity(n), z)[j]
    {
      MatVecAssociates(X, A, z, n);
      DotZeroTail(X[j], Zeros(n), 0, n);
      assert Identity(n)[j] == Unit(n, j);
      DotCommutes(Unit(n, j), z, n);
      DotUnit(z, n, j);
    }
  }

  /** Back-substitution above a zero pivot: a vector with entry 1 at j that U sends to zero above j. */
  lemma BackSolve(G: Matrix, n: nat, j: nat) returns (z: Vector)
    requires IsMatrix(G, n, n) && j < n
    requires forall k :: 0 <= k < j ==> G[k][k] != 0.0
    ensures |z| == n && z[j] == 1.0 && forall c :: j < c < n ==> z[c] == 0.0
    ensures forall t :: 0 <= t < j ==> Dot(Upper(G, n)[t], z, n) == 0.0
  {
    var U := Upper(G, n);
    z := Unit(n, j);
    var t := j;
    while t > 0
      invariant 0 <= t <= j && |z| == n && z[j] == 1.0 && forall c :: j < c < n ==> z[c] == 0.0
      invariant forall s :: t <= s < j ==> Dot(U[s], z, n) == 0.0
    {
      t := t - 1;
      var d := Dot(U[t], z, n);
      var x := z[t] - d / G[t][t];
      forall s | t <= s < j
        ensures Dot(U[s], z[t := x], n) == 0.0
      {
        DotUpdate(U[s], z, t, x, n);
        if s == t {
          assert U[t][t] == G[t][t];
          assert G[t][t] * (-(d / G[t][t])) == -d;
        }
      }
      z := z[t := x];
    }
  }

  /** A zero pivot after the pivot search means the permuted input has a kernel vector. */
  lemma ZeroPivotKernel(G: Matrix, R: Matrix, n: nat, j: nat) returns (z: Vector)
    requires Reduced(G, R, n, j) && j < n
    requires forall i :: 0 <= i < n ==> Half(G, R, n, i, j)
    requires forall i :: j <= i < n ==> G[i][j] == 0.0
    ensures |z| == n && z[j] == 1.0 && MatVec(R, z) == Zeros(n)
  {
    z := BackSolve(G, n, j);
    var L, U := Lower(G, n, j), Upper(G, n);
    forall i | 0 <= i < n
      ensures Dot(R[i], z, n) == 0.0
    {
      RowThroughFactors(G, R, n, j, i);
      TruncatedRow(R[i], L[i], U, n, j, z);
      DotZeroTail(L[i], MatVec(U, z), 0, n);
    }
  }

  lemma RowThroughFactors(G: Matrix, R: Matrix, n: nat, j: nat, i: nat)
    requires Reduced(G, R, n, j) && j < n && i < n
    requires Half(G, R, n, i, j) && (i >= j ==> G[i][j] == 0.0)
    ensures forall c :: 0 <= c <= j ==> R[i][c] == Dot(Lower(G, n, j)[i], Col(Upper(G, n), c), n)
  {
    forall c | 0 <= c <= j
      ensures R[i][c] == Dot(Lower(G, n, j)[i], Col(Upper(G, n), c), n)
    {
      assert c < j ==> Done(G, R, n, i, c);
      ProductEntry(G, R, n, j, i, c);
    }
  }

  /** A vector that ends at column j meets only the first j + 1 columns of a row. */
  lemma TruncatedRow(r: Vector, l: Vector, U: Matrix, n: nat, j: nat, z: Vector)
    requires |r| == |l| == |z| == n && IsMatrix(U, n, n) && j < n
    requires forall c :: j < c < n ==> z[c] == 0.0
    requires forall c :: 0 <= c <= j ==> r[c] == Dot(l, Col(U, c), n)
    ensures Dot(r, z, n) == Dot(l, MatVec(U, z), n)
  {
    hide Dot, MatVec;
    var p := VecMatTo(l, U, n, n);
    DotAssociates(l, U, z, n);
    SameFront(r, p, z, n, j + 1);
  }

  lemma SameFront(r: Vector, p: Vector, z: Vector, n: nat, k: nat)
    requires |r| == |p| == |z| == n && k <= n
    requires forall c :: k <= c < n ==> z[c] == 0.0
    requires forall c :: 0 <= c < k ==> r[c] == p[c]
    ensures Dot(r, z, n) == Dot(p, z, n)
  {
    hide Dot;
    DotZeroTail(r, z, k, n);
    DotZeroTail(p, z, k, n);
    DotFrame(r, z, p, z, k);
  }

  lemma ZeroPivotNotInvertible(G: Matrix, A: Matrix, R: Matrix, idx: seq<int>, n: nat, j: nat)
    requires IsMatrix(A, n, n) && j < n && ValidSwaps(idx, n, j + 1)
    requires R == ApplySwaps(A, idx, j + 1) && Reduced(G, R, n, j)
    requires forall i :: 0 <= i < n ==> Half(G, R, n, i, j)
    requires forall i :: j <= i < n ==> G[i][j] == 0.0
    ensures !Invertible(A, n)
  {
    var z := ZeroPivotKernel(G, R, n, j);
    SwapsMatVec(A, z, idx, j + 1);
    SwapsZeros(n, idx, j + 1);
    SwapsInjective(MatVec(A, z), Zeros(n), idx, j + 1);
    KernelNotInvertible(A, n, z, j);
  }
}
