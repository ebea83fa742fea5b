// The Kalman measurement update of cross.c on the active part of the state.
module Kalman {
  import opened Vectors
  import opened Grids
  import opened LuSolver

  /** The innovation covariance H' P H + R, with H stored as n x m. */
  ghost function Innovation(P: Matrix, H: Matrix, R: Matrix, n: nat, m: nat): (S: Matrix)
    requires IsMatrix(P, n, n) && IsMatrix(H, n, m) && IsMatrix(R, m, m)
    ensures IsMatrix(S, m, m)
  {
    Combine(1.0, Mul(Transpose(H, n, m), Mul(P, H, n, m), n, m), 1.0, R, m, m)
  }

  /** The gain K = P H S^-1, given the inverse Si of the innovation covariance. */
  ghost function Gain(P: Matrix, H: Matrix, Si: Matrix, n: nat, m: nat): (K: Matrix)
    requires IsMatrix(P, n, n) && IsMatrix(H, n, m) && IsMatrix(Si, m, m)
    ensures IsMatrix(K, n, m)
  {
    Mul(Mul(P, H, n, m), Si, m, m)
  }

  /** (I - K H') P. */
  ghost function UpdatedP(P: Matrix, H: Matrix, K: Matrix, n: nat, m: nat): (U: Matrix)
    requires IsMatrix(P, n, n) && IsMatrix(H, n, m) && IsMatrix(K, n, m)
    ensures IsMatrix(U, n, n)
  {
    Mul(Combine(-1.0, Mul(K, Transpose(H, n, m), m, n), 1.0, Identity(n), n, n), P, n, n)
  }

  /** x + K v. */
  ghost function UpdatedX(x: Vector, K: Matrix, v: Vector, n: nat, m: nat): (u: Vector)
    requires |x| == n && |v| == m && IsMatrix(K, n, m)
    ensures |u| == n
  {
    Axpby(1.0, MatVec(K, v), 1.0, x)
  }

  /** The whole update: Si is the inverse innovation covariance, x' and P' the new state and covariance. */
  ghost predicate Updated(x: Vector, P: Matrix, H: Matrix, v: Vector, R: Matrix, n: nat, m: nat,
                          Si: Matrix, x': Vector, P': Matrix) {
    && |x| == n && |v| == m && IsMatrix(P, n, n) && IsMatrix(H, n, m) && IsMatrix(R, m, m)
    && IsInverse(Innovation(P, H, R, n, m), Si, m)
    && x' == UpdatedX(x, Gain(P, H, Si, n, m), v, n, m)
    && P' == UpdatedP(P, H, Gain(P, H, Si, n, m), n, m)
  }

  // ---------- symmetry ----------

  lemma MulDistributes(a: real, M: Matrix, b: real, N: Matrix, C: Matrix, rows: nat, inner: nat, cols: nat)
    requires IsMatrix(M, rows, inner) && IsMatrix(N, rows, inner) && IsMatrix(C, inner, cols)
    ensures Mul(Combine(a, M, b, N, rows, inner), C, inner, cols)
         == Combine(a, Mul(M, C, inner, cols), b, Mul(N, C, inner, cols), rows, cols)
  {
    hide Dot;
    var S := Combine(a, M, b, N, rows, inner);
    var L, T := Mul(S, C, inner, cols), Combine(a, Mul(M, C, inner, cols), b, Mul(N, C, inner, cols), rows, cols);
    forall i, j | 0 <= i < rows && 0 <= j < cols
      ensures L[i][j] == T[i][j]
    {
      DotLinear(S[i], a, M[i], b, N[i], Col(C, j), inner);
    }
    MatrixEqual(L, T, rows, cols);
  }

  lemma SymmetricCombine(a: real, M: Matrix, b: real, N: Matrix, n: nat)
    requires IsMatrix(M, n, n) && IsMatrix(N, n, n) && Symmetric(M, n) && Symmetric(N, n)
    ensures Symmetric(Combine(a, M, b, N, n, n), n)
  {
  }

  /** B M B' is symmetric whenever M is, for B of any shape. */
  lemma Congruence(B: Matrix, M: Matrix, rows: nat, inner: nat)
    requires IsMatrix(B, rows, inner) && IsMatrix(M, inner, inner) && Symmetric(M, inner)
    ensures Symmetric(Mul(Mul(B, M, inner, inner), Transpose(B, rows, inner), inner, rows), rows)
  {
    var Bt := Transpose(B, rows, inner);
    var BM := Mul(B, M, inner, inner);
    var S := Mul(BM, Bt, inner, rows);
    TransposeMul(BM, Bt, rows, inner, rows);
    TransposeTwice(B, rows, inner);
    TransposeMul(B, M, rows, inner, inner);
    SymmetricIsTranspose(M, inner);
    MulAssociates(B, M, Bt, inner, inner, rows);
    SymmetricIsTranspose(S, rows);
  }

  lemma InnovationSymmetric(P: Matrix, H: Matrix, R: Matrix, n: nat, m: nat)
    requires IsMatrix(P, n, n) && IsMatrix(H, n, m) && IsMatrix(R, m, m)
    requires Symmetric(P, n) && Symmetric(R, m)
    ensures Symmetric(Innovation(P, H, R, n, m), m)
  {
    var Ht := Transpose(H, n, m);
    TransposeTwice(H, n, m);
    Congruence(Ht, P, m, n);
    MulAssociates(Ht, P, H, n, n, m);
    SymmetricCombine(1.0, Mul(Ht, Mul(P, H, n, m), n, m), 1.0, R, m);
  }

  lemma InverseSymmetric(S: Matrix, X: Matrix, n: nat)
    requires IsMatrix(S, n, n) && Symmetric(S, n) && IsInverse(S, X, n)
    ensures Symmetric(X, n)
  {
    InverseTranspose(S, X, n);
    SymmetricIsTranspose(S, n);
    InverseUnique(S, X, Transpose(X, n, n), n);
    SymmetricIsTranspose(X, n);
  }

  /** The covariance update in its textbook form: P' = P - F S^-1 F' with F = P H, for symmetric P. */
  lemma UpdatedPForm(P: Matrix, H: Matrix, Si: Matrix, n: nat, m: nat)
    requires IsMatrix(P, n, n) && IsMatrix(H, n, m) && IsMatrix(Si, m, m) && Symmetric(P, n)
    ensures var F := Mul(P, H, n, m);
      UpdatedP(P, H, Gain(P, H, Si, n, m), n, m)
        == Combine(-1.0, Mul(Mul(F, Si, m, m), Transpose(F, n, m), m, n), 1.0, P, n, n)
  {
    var F, Ht := Mul(P, H, n, m), Transpose(H, n, m);
    var K := Mul(F, Si, m, m);
    MulDistributes(-1.0, Mul(K, Ht, m, n), 1.0, Identity(n), P, n, n, n);
    MulIdentity(P, n, n);
    MulAssociates(K, Ht, P, m, n, n);
    TransposeMul(P, H, n, n, m);
    SymmetricIsTranspose(P, n);
  }

  /** Symmetric P and R give a symmetric new covariance. */
  lemma UpdateKeepsSymmetry(x: Vector, P: Matrix, H: Matrix, v: Vector, R: Matrix, n: nat, m: nat,
                            Si: Matrix, x': Vector, P': Matrix)
    requires Updated(x, P, H, v, R, n, m, Si, x', P') && Symmetric(P, n) && Symmetric(R, m)
    ensures Symmetric(P', n)
  {
    var F := Mul(P, H, n, m);
    InnovationSymmetric(P, H, R, n, m);
    InverseSymmetric(Innovation(P, H, R, n, m), Si, m);
    Congruence(F, Si, n, m);
    UpdatedPForm(P, H, Si, n, m);
    SymmetricCombine(-1.0, Mul(Mul(F, Si, m, m), Transpose(F, n, m), m, n), 1.0, P, n);
  }

  // ---------- the dense update ----------

  /** eye */
  method Eye(n: nat) returns (I: array<real>)
    ensures fresh(I) && I.Length == n * n && Grid(I[..], n, n) == Identity(n)
  {
    hide Grid, Identity;
    I := new real[n * n];
    for i := 0 to n
      invariant forall p, q :: 0 <= p < i && 0 <= q < n ==> Grid(I[..], n, n)[p][q] == Identity(n)[p][q]
    {
      for j := 0 to n
        invariant forall p, q :: 0 <= p < n && 0 <= q < n && (p < i || (p == i && q < j)) ==>
          Grid(I[..], n, n)[p][q] == Identity(n)[p][q]
      {
        Store(I, n, n, i, j, if i == j then 1.0 else 0.0);
      }
    }
    MatrixEqual(Grid(I[..], n, n), Identity(n), n, n);
  }

  /** F = P H and Q = H' F + R. */
  method FormInnovation(P: array<real>, H: array<real>, R: array<real>, n: nat, m: nat)
    returns (F: array<real>, Q: array<real>)
    requires P.Length == n * n && H.Length == n * m && R.Length == m * m
    ensures fresh(F) && fresh(Q) && F != Q && F.Length == n * m && Q.Length == m * m
    ensures Grid(F[..], n, m) == Mul(Grid(P[..], n, n), Grid(H[..], n, m), n, m)
    ensures Grid(Q[..], m, m) == Innovation(Grid(P[..], n, n), Grid(H[..], n, m), Grid(R[..], m, m), n, m)
  {
    hide Grid, Mul, Combine;
    F := new real[n * m];
    Q := Copy(R);
    ghost var C := Grid(F[..], n, m);
    Matmul("NN", n, m, n, 1.0, P, H, 0.0, F);
    PlainProduct(Mul(Grid(P[..], n, n), Grid(H[..], n, m), n, m), C, n, m);
    Matmul("TN", m, m, n, 1.0, H, F, 1.0, Q);
  }

  /** K = F Q, xp = x + K v, Pp = (I - K H') P, with Q already inverted and xp holding x. */
  method ApplyGain(P: array<real>, H: array<real>, v: array<real>, F: array<real>, Q: array<real>, n: nat, m: nat,
                   xp: array<real>, Pp: array<real>)
    requires P.Length == n * n && H.Length == n * m && v.Length == m && F.Length == n * m && Q.Length == m * m
    requires xp.Length == n && Pp.Length == n * n && xp != Pp
    requires xp !in {P, H, v, F, Q} && Pp !in {P, H, v, F, Q}
    requires Grid(F[..], n, m) == Mul(Grid(P[..], n, n), Grid(H[..], n, m), n, m)
    modifies xp, Pp
    ensures var K := Gain(Grid(P[..], n, n), Grid(H[..], n, m), Grid(Q[..], m, m), n, m);
      && xp[..] == UpdatedX(old(xp[..]), K, v[..], n, m)
      && Grid(Pp[..], n, n) == UpdatedP(Grid(P[..], n, n), Grid(H[..], n, m), K, n, m)
  {
    hide Grid, Mul, Combine, UpdatedX;
    ghost var MK := Gain(Grid(P[..], n, n), Grid(H[..], n, m), Grid(Q[..], m, m), n, m);
    var I := Eye(n);
    var K := new real[n * m];
    ghost var C := Grid(K[..], n, m);
    Matmul("NN", n, m, m, 1.0, F, Q, 0.0, K);
    PlainProduct(MK, C, n, m);
    ghost var x0 := xp[..];
    Matmul("NN", n, 1, m, 1.0, K, v, 1.0, xp);
    ColumnUpdate(MK, v[..], x0, xp[..], n, m);
    Matmul("NT", n, n, m, -1.0, K, H, 1.0, I);
    C := Grid(Pp[..], n, n);
    Matmul("NN", n, n, n, 1.0, I, P, 0.0, Pp);
    PlainProduct(UpdatedP(Grid(P[..], n, n), Grid(H[..], n, m), MK, n, m), C, n, n);
  }

  /** filter_: the update on dense arrays; xp holds x and Pp is not written when the inverse fails. */
  method FilterDense(x: array<real>, P: array<real>, H: array<real>, v: array<real>, R: array<real>, n: nat, m: nat,
                     xp: array<real>, Pp: array<real>) returns (info: int, ghost Si: Matrix)
    requires x.Length == n && P.Length == n * n && H.Length == n * m && v.Length == m && R.Length == m * m
    requires xp.Length == n && Pp.Length == n * n && xp != Pp
    requires xp !in {x, P, H, v, R} && Pp !in {x, P, H, v, R}
    modifies xp, Pp
    ensures info == 0 || info == -1
    ensures info == 0 <==> Invertible(Innovation(Grid(P[..], n, n), Grid(H[..], n, m), Grid(R[..], m, m), n, m), m)
    ensures info == 0 ==>
      Updated(x[..], Grid(P[..], n, n), Grid(H[..], n, m), v[..], Grid(R[..], m, m), n, m, Si, xp[..],
        Grid(Pp[..], n, n))
    ensures info != 0 ==> xp[..] == x[..]
  {
    hide Grid, Mul, Combine, UpdatedX, UpdatedP, Gain, Innovation;
    for k := 0 to n
      invariant xp[..k] == x[..k]
    {
      xp[k] := x[k];
    }
    assert xp[..] == x[..];
    var F, Q := FormInnovation(P, H, R, n, m);
    info := Matinv(Q, m);
    Si := Grid(Q[..], m, m);
    if info == 0 {
      ApplyGain(P, H, v, F, Q, n, m, xp, Pp);
    }
  }

  lemma ColumnUpdate(K: Matrix, v: seq<real>, x: seq<real>, x': seq<real>, n: nat, m: nat)
    requires IsMatrix(K, n, m) && |v| == m * 1 && |x| == n * 1 == |x'|
    requires Grid(x', n, 1) == Combine(1.0, Mul(K, Grid(v, m, 1), m, 1), 1.0, Grid(x, n, 1), n, 1)
    ensures x' == UpdatedX(x, K, v, n, m)
  {
    hide Dot, Grid, Mul, Combine;
    GridColumn(x', n);
    GridColumn(x, n);
    GridColumn(v, m);
    MulCol(K, Grid(v, m, 1), m, 1, 0);
    var G, P := Grid(x, n, 1), Mul(K, Grid(v, m, 1), m, 1);
    ColumnEntries(P, G, n);
    assert x' == UpdatedX(x, K, v, n, m);
  }

  lemma ColumnEntries(P: Matrix, G: Matrix, n: nat)
    requires IsMatrix(P, n, 1) && IsMatrix(G, n, 1)
    ensures Col(Combine(1.0, P, 1.0, G, n, 1), 0) == Axpby(1.0, Col(P, 0), 1.0, Col(G, 0))
  {
  }

  // ---------- gathering and scattering the active states ----------

  /** A state takes part in the update when it is nonzero and its variance is positive. */
  ghost predicate Active(x: Vector, P: Matrix, n: nat, i: nat)
    requires |x| == n && IsMatrix(P, n, n) && i < n
  {
    x[i] != 0.0 && P[i][i] > 0.0
  }

  ghost predicate BothActive(x: Vector, P: Matrix, n: nat, i: nat, j: nat)
    requires |x| == n && IsMatrix(P, n, n) && i < n && j < n
  {
    Active(x, P, n, i) && Active(x, P, n, j)
  }

  /** ix lists exactly the active states below `limit`, in increasing order. */
  ghost predicate ActiveIndex(ix: seq<int>, x: Vector, P: Matrix, n: nat, limit: nat)
    requires |x| == n && IsMatrix(P, n, n) && limit <= n
  {
    && (forall a :: 0 <= a < |ix| ==> 0 <= ix[a] < limit && Active(x, P, n, ix[a]))
    && (forall a, b :: 0 <= a < b < |ix| ==> ix[a] < ix[b])
    && (forall i :: 0 <= i < limit && Active(x, P, n, i) ==> i in ix)
  }

  ghost function Pick(x: Vector, ix: seq<int>): (u: Vector)
    requires forall a :: 0 <= a < |ix| ==> 0 <= ix[a] < |x|
    ensures |u| == |ix| && forall a :: 0 <= a < |ix| ==> u[a] == x[ix[a]]
  {
    seq(|ix|, a requires 0 <= a < |ix| => x[ix[a]])
  }

  /** Rows ix of M. */
  ghost function PickRows(M: Matrix, ix: seq<int>, n: nat, m: nat): (S: Matrix)
    requires IsMatrix(M, n, m) && forall a :: 0 <= a < |ix| ==> 0 <= ix[a] < n
    ensures IsMatrix(S, |ix|, m) && forall a :: 0 <= a < |ix| ==> S[a] == M[ix[a]]
  {
    seq(|ix|, a requires 0 <= a < |ix| => M[ix[a]])
  }

  /** Rows and columns ix of M. */
  ghost function PickBlock(M: Matrix, ix: seq<int>, n: nat): (S: Matrix)
    requires IsMatrix(M, n, n) && forall a :: 0 <= a < |ix| ==> 0 <= ix[a] < n
    ensures IsMatrix(S, |ix|, |ix|)
    ensures forall a, b :: 0 <= a < |ix| && 0 <= b < |ix| ==> S[a][b] == M[ix[a]][ix[b]]
  {
    seq(|ix|, a requires 0 <= a < |ix| => Pick(M[ix[a]], ix))
  }

  /** x' is x with the entries ix replaced by u. */
  ghost predicate Spread(x: Vector, x': Vector, ix: seq<int>, u: Vector, k: nat)
    requires |u| == |ix| && k <= |ix| && forall a :: 0 <= a < |ix| ==> 0 <= ix[a] < |x|
  {
    && |x'| == |x|
    && (forall a :: 0 <= a < k ==> x'[ix[a]] == u[a])
    && (forall i :: 0 <= i < |x| && i !in ix[..k] ==> x'[i] == x[i])
  }

  ghost predicate InBlock(ix: seq<int>, i: int, j: int) {
    i in ix && j in ix
  }

  /** M' is M outside the rows and columns ix, and S inside them. */
  ghost predicate SpreadBlock(M: Matrix, M': Matrix, ix: seq<int>, S: Matrix, n: nat)
    requires IsMatrix(M, n, n) && IsMatrix(S, |ix|, |ix|) && forall a :: 0 <= a < |ix| ==> 0 <= ix[a] < n
  {
    && IsMatrix(M', n, n)
    && (forall a, b :: 0 <= a < |ix| && 0 <= b < |ix| ==> M'[ix[a]][ix[b]] == S[a][b])
    && (forall i, j :: 0 <= i < n && 0 <= j < n && !InBlock(ix, i, j) ==> M'[i][j] == M[i][j])
  }

  /** Symmetry of the whole covariance survives when the active block stays symmetric. */
  lemma SpreadSymmetric(M: Matrix, M': Matrix, ix: seq<int>, S: Matrix, n: nat)
    requires IsMatrix(M, n, n) && IsMatrix(S, |ix|, |ix|) && forall a :: 0 <= a < |ix| ==> 0 <= ix[a] < n
    requires SpreadBlock(M, M', ix, S, n) && Symmetric(M, n) && Symmetric(S, |ix|)
    ensures Symmetric(M', n)
  {
    forall i, j | 0 <= i < n && 0 <= j < n
      ensures M'[i][j] == M'[j][i]
    {
      if i in ix && j in ix {
        var a :| 0 <= a < |ix| && ix[a] == i;
        var b :| 0 <= b < |ix| && ix[b] == j;
        assert M'[ix[a]][ix[b]] == S[a][b] && M'[ix[b]][ix[a]] == S[b][a];
      }
    }
  }

  /** The update of the active block of a whole filter step. */
  ghost predicate FilterStep(x: Vector, P: Matrix, H: Matrix, v: Vector, R: Matrix, n: nat, m: nat,
                             ix: seq<int>, Si: Matrix, x': Vector, P': Matrix) {
    && |x| == n == |x'| && |v| == m && IsMatrix(P, n, n) && IsMatrix(H, n, m) && IsMatrix(R, m, m)
    && ActiveIndex(ix, x, P, n, n)
    && IsMatrix(P', n, n)
    && Updated(Pick(x, ix), PickBlock(P, ix, n), PickRows(H, ix, n, m), v, R, |ix|, m, Si,
               Pick(x', ix), PickBlock(P', ix, n))
    && (forall i :: 0 <= i < n && !Active(x, P, n, i) ==> x'[i] == x[i])
    && (forall i, j :: 0 <= i < n && 0 <= j < n && !BothActive(x, P, n, i, j) ==> P'[i][j] == P[i][j])
  }

  lemma StepKeepsSymmetry(x: Vector, P: Matrix, H: Matrix, v: Vector, R: Matrix, n: nat, m: nat,
                          ix: seq<int>, Si: Matrix, x': Vector, P': Matrix)
    requires FilterStep(x, P, H, v, R, n, m, ix, Si, x', P') && Symmetric(P, n) && Symmetric(R, m)
    ensures Symmetric(P', n)
  {
    hide Updated;
    var S := PickBlock(P', ix, n);
    assert Symmetric(PickBlock(P, ix, n), |ix|);
    UpdateKeepsSymmetry(Pick(x, ix), PickBlock(P, ix, n), PickRows(H, ix, n, m), v, R, |ix|, m, Si, Pick(x', ix), S);
    SpreadSymmetric(P, P', ix, S, n);
  }

  /** The indices of the active states, in order. */
  method FindActive(x: array<real>, P: array<real>, n: nat) returns (ix: seq<nat>)
    requires x.Length == n && P.Length == n * n
    ensures ActiveIndex(ix, x[..], Grid(P[..], n, n), n, n)
  {
    ix := [];
    for i := 0 to n
      invariant ActiveIndex(ix, x[..], Grid(P[..], n, n), n, i)
    {
      var p := Load(P, n, n, i, i);
      if x[i] != 0.0 && p > 0.0 {
        ghost var old_ix := ix;
        ix := ix + [i];
        assert forall q :: q in old_ix ==> q in ix;
        assert ix[|ix| - 1] == i;
      }
    }
  }

  /** x_ = x[ix], P_ = P[ix, ix] and H_ = H[ix, :]. */
  method Gather(x: array<real>, P: array<real>, H: array<real>, n: nat, m: nat, ix: seq<nat>)
    returns (x_: array<real>, P_: array<real>, H_: array<real>)
    requires x.Length == n && P.Length == n * n && H.Length == n * m
    requires forall a :: 0 <= a < |ix| ==> ix[a] < n
    ensures fresh(x_) && fresh(P_) && fresh(H_) && x_ != P_ && x_ != H_ && P_ != H_
    ensures x_.Length == |ix| && P_.Length == |ix| * |ix| && H_.Length == |ix| * m
    ensures x_[..] == Pick(x[..], ix)
    ensures Grid(P_[..], |ix|, |ix|) == PickBlock(Grid(P[..], n, n), ix, n)
    ensures Grid(H_[..], |ix|, m) == PickRows(Grid(H[..], n, m), ix, n, m)
  {
    var k := |ix|;
    x_ := new real[k];
    for i := 0 to k
      invariant forall a :: 0 <= a < i ==> x_[a] == x[ix[a]]
    {
      x_[i] := x[ix[i]];
    }
    P_ := GatherBlock(P, n, ix);
    H_ := GatherRows(H, n, m, ix);
  }

  method GatherBlock(P: array<real>, n: nat, ix: seq<nat>) returns (P_: array<real>)
    requires P.Length == n * n && forall a :: 0 <= a < |ix| ==> ix[a] < n
    ensures fresh(P_) && P_.Length == |ix| * |ix|
    ensures Grid(P_[..], |ix|, |ix|) == PickBlock(Grid(P[..], n, n), ix, n)
  {
    hide PickBlock, Grid;
    var k := |ix|;
    P_ := new real[k * k];
    ghost var T := PickBlock(Grid(P[..], n, n), ix, n);
    for i := 0 to k
      invariant forall a, b :: 0 <= a < i && 0 <= b < k ==> Grid(P_[..], k, k)[a][b] == T[a][b]
    {
      for j := 0 to k
        invariant forall a, b :: 0 <= a < k && 0 <= b < k && (a < i || (a == i && b < j)) ==>
          Grid(P_[..], k, k)[a][b] == T[a][b]
      {
        var p := Load(P, n, n, ix[i], ix[j]);
        Store(P_, k, k, i, j, p);
      }
    }
    MatrixEqual(Grid(P_[..], k, k), T, k, k);
  }

  method GatherRows(H: array<real>, n: nat, m: nat, ix: seq<nat>) returns (H_: array<real>)
    requires H.Length == n * m && forall a :: 0 <= a < |ix| ==> ix[a] < n
    ensures fresh(H_) && H_.Length == |ix| * m
    ensures Grid(H_[..], |ix|, m) == PickRows(Grid(H[..], n, m), ix, n, m)
  {
    var k := |ix|;
    H_ := new real[k * m];
    ghost var T := PickRows(Grid(H[..], n, m), ix, n, m);
    for i := 0 to k
      invariant forall a, b :: 0 <= a < i && 0 <= b < m ==> Grid(H_[..], k, m)[a][b] == T[a][b]
    {
      for j := 0 to m
        invariant forall a, b :: 0 <= a < k && 0 <= b < m && (a < i || (a == i && b < j)) ==>
          Grid(H_[..], k, m)[a][b] == T[a][b]
      {
        var h := Load(H, n, m, ix[i], j);
        Store(H_, k, m, i, j, h);
      }
    }
    MatrixEqual(Grid(H_[..], k, m), T, k, m);
  }

  /** The block entries written so far, row by row; nothing outside the block changes. */
  ghost predicate BlockTo(M: Matrix, M': Matrix, ix: seq<int>, S: Matrix, n: nat, i: nat, j: nat)
    requires IsMatrix(M, n, n) && IsMatrix(S, |ix|, |ix|) && forall a :: 0 <= a < |ix| ==> 0 <= ix[a] < n
  {
    && IsMatrix(M', n, n)
    && (forall a, b :: 0 <= a < |ix| && 0 <= b < |ix| && (a < i || (a == i && b < j)) ==> M'[ix[a]][ix[b]] == S[a][b])
    && (forall p, q :: 0 <= p < n && 0 <= q < n && !InBlock(ix, p, q) ==> M'[p][q] == M[p][q])
  }

  ghost predicate Increasing(ix: seq<int>) {
    forall a, b :: 0 <= a < b < |ix| ==> ix[a] < ix[b]
  }

  lemma BlockStep(M: Matrix, M': Matrix, ix: seq<int>, S: Matrix, n: nat, i: nat, j: nat)
    requires IsMatrix(M, n, n) && IsMatrix(S, |ix|, |ix|) && forall a :: 0 <= a < |ix| ==> 0 <= ix[a] < n
    requires Increasing(ix) && BlockTo(M, M', ix, S, n, i, j) && i < |ix| && j < |ix|
    ensures BlockTo(M, Put(M', n, n, ix[i], ix[j], S[i][j]), ix, S, n, i, j + 1)
  {
  }

  /** Write the updated block and states back. */
  method Scatter(x: array<real>, P: array<real>, n: nat, ix: seq<nat>, xp: array<real>, Pp: array<real>)
    requires x.Length == n && P.Length == n * n && xp.Length == |ix| && Pp.Length == |ix| * |ix|
    requires x != P && xp != x && xp != P && Pp != x && Pp != P
    requires (forall a :: 0 <= a < |ix| ==> ix[a] < n) && Increasing(ix)
    modifies x, P
    ensures Spread(old(x[..]), x[..], ix, xp[..], |ix|)
    ensures SpreadBlock(Grid(old(P[..]), n, n), Grid(P[..], n, n), ix, Grid(Pp[..], |ix|, |ix|), n)
  {
    hide BlockTo, Grid;
    var k := |ix|;
    ghost var x0, M, S := x[..], Grid(P[..], n, n), Grid(Pp[..], k, k);
    BlockStart(M, ix, S, n);
    for i := 0 to k
      invariant xp[..] == old(xp[..]) && Pp[..] == old(Pp[..])
      invariant Spread(x0, x[..], ix, xp[..], i)
      invariant BlockTo(M, Grid(P[..], n, n), ix, S, n, i, 0)
    {
      x[ix[i]] := xp[i];
      assert ix[..i + 1] == ix[..i] + [ix[i]];
      for j := 0 to k
        invariant xp[..] == old(xp[..]) && Pp[..] == old(Pp[..])
        invariant Spread(x0, x[..], ix, xp[..], i + 1)
        invariant BlockTo(M, Grid(P[..], n, n), ix, S, n, i, j)
      {
        var p := Load(Pp, k, k, i, j);
        BlockStep(M, Grid(P[..], n, n), ix, S, n, i, j);
        Store(P, n, n, ix[i], ix[j], p);
      }
      BlockRow(M, Grid(P[..], n, n), ix, S, n, i);
    }
    BlockAll(M, Grid(P[..], n, n), ix, S, n);
  }

  lemma BlockStart(M: Matrix, ix: seq<int>, S: Matrix, n: nat)
    requires IsMatrix(M, n, n) && IsMatrix(S, |ix|, |ix|) && forall a :: 0 <= a < |ix| ==> 0 <= ix[a] < n
    ensures BlockTo(M, M, ix, S, n, 0, 0)
  {
  }

  lemma BlockRow(M: Matrix, M': Matrix, ix: seq<int>, S: Matrix, n: nat, i: nat)
    requires IsMatrix(M, n, n) && IsMatrix(S, |ix|, |ix|) && forall a :: 0 <= a < |ix| ==> 0 <= ix[a] < n
    requires BlockTo(M, M', ix, S, n, i, |ix|)
    ensures BlockTo(M, M', ix, S, n, i + 1, 0)
  {
  }

  lemma BlockAll(M: Matrix, M': Matrix, ix: seq<int>, S: Matrix, n: nat)
    requires IsMatrix(M, n, n) && IsMatrix(S, |ix|, |ix|) && forall a :: 0 <= a < |ix| ==> 0 <= ix[a] < n
    requires BlockTo(M, M', ix, S, n, |ix|, 0)
    ensures SpreadBlock(M, M', ix, S, n)
  {
  }

  lemma StepFromSpread(x: Vector, P: Matrix, H: Matrix, v: Vector, R: Matrix, n: nat, m: nat, ix: seq<int>, Si: Matrix,
                       xp: Vector, Pp: Matrix, x': Vector, P': Matrix)
    requires |x| == n && |v| == m && IsMatrix(P, n, n) && IsMatrix(H, n, m) && IsMatrix(R, m, m)
    requires ActiveIndex(ix, x, P, n, n) && |xp| == |ix| && IsMatrix(Pp, |ix|, |ix|)
    requires Updated(Pick(x, ix), PickBlock(P, ix, n), PickRows(H, ix, n, m), v, R, |ix|, m, Si, xp, Pp)
    requires Spread(x, x', ix, xp, |ix|) && SpreadBlock(P, P', ix, Pp, n)
    ensures FilterStep(x, P, H, v, R, n, m, ix, Si, x', P')
  {
    assert ix[..|ix|] == ix;
    assert Pick(x', ix) == xp;
    MatrixEqual(PickBlock(P', ix, n), Pp, |ix|, |ix|);
    forall i | 0 <= i < n && !Active(x, P, n, i)
      ensures i !in ix
    {
    }
  }

  /** The innovation covariance of the active block. */
  ghost function ActiveInnovation(P: Matrix, H: Matrix, R: Matrix, ix: seq<int>, n: nat, m: nat): (S: Matrix)
    requires IsMatrix(P, n, n) && IsMatrix(H, n, m) && IsMatrix(R, m, m)
    requires forall a :: 0 <= a < |ix| ==> 0 <= ix[a] < n
    ensures IsMatrix(S, m, m)
  {
    Innovation(PickBlock(P, ix, n), PickRows(H, ix, n, m), R, |ix|, m)
  }

  /** The Kalman filter step.  More than 135 states: it reports success and does nothing. */
  method Filter(x: array<real>, P: array<real>, H: array<real>, v: array<real>, R: array<real>, n: nat, m: nat)
    returns (info: int, ghost ix: seq<int>, ghost Si: Matrix)
    requires x.Length == n && P.Length == n * n && H.Length == n * m && v.Length == m && R.Length == m * m
    requires x != P && x !in {H, v, R} && P !in {H, v, R}
    modifies x, P
    ensures info == 0 || info == -1
    ensures ActiveIndex(ix, old(x[..]), Grid(old(P[..]), n, n), n, n)
    ensures n > 135 ==> info == 0 && x[..] == old(x[..]) && P[..] == old(P[..])
    ensures n <= 135 ==>
      (info == 0 <==>
        Invertible(ActiveInnovation(Grid(old(P[..]), n, n), Grid(H[..], n, m), Grid(R[..], m, m), ix, n, m), m))
    ensures n <= 135 && info == 0 ==>
      FilterStep(old(x[..]), Grid(old(P[..]), n, n), Grid(H[..], n, m), v[..], Grid(R[..], m, m), n, m, ix, Si,
                 x[..], Grid(P[..], n, n))
    ensures info != 0 ==> x[..] == old(x[..])
    ensures forall i, j :: 0 <= i < n && 0 <= j < n && !InBlock(ix, i, j) ==>
      Grid(P[..], n, n)[i][j] == Grid(old(P[..]), n, n)[i][j]
  {
    hide Grid, Updated, FilterStep, ActiveIndex, Innovation, PickBlock, PickRows;
    var act := FindActive(x, P, n);
    ix := act;
    Si := [];
    if 135 < n {
      return 0, ix, Si;
    }
    ghost var x0, M := x[..], Grid(P[..], n, n);
    IndexFacts(ix, x0, M, n);
    var k := |act|;
    var x_, P_, H_ := Gather(x, P, H, n, m, act);
    var xp, Pp := new real[k], new real[k * k];
    info, Si := FilterDense(x_, P_, H_, v, R, k, m, xp, Pp);
    Scatter(x, P, n, act, xp, Pp);
    if info == 0 {
      StepFromSpread(x0, M, Grid(H[..], n, m), v[..], Grid(R[..], m, m), n, m, ix, Si,
                     xp[..], Grid(Pp[..], k, k), x[..], Grid(P[..], n, n));
    } else {
      SpreadSame(x0, x[..], ix, xp[..]);
    }
  }

  lemma IndexFacts(ix: seq<int>, x: Vector, P: Matrix, n: nat)
    requires |x| == n && IsMatrix(P, n, n) && ActiveIndex(ix, x, P, n, n)
    ensures Increasing(ix) && forall a :: 0 <= a < |ix| ==> 0 <= ix[a] < n
  {
  }

  lemma SpreadSame(x: Vector, x': Vector, ix: seq<int>, u: Vector)
    requires |u| == |ix| && forall a :: 0 <= a < |ix| ==> 0 <= ix[a] < |x|
    requires Spread(x, x', ix, u, |ix|) && u == Pick(x, ix)
    ensures x' == x
  {
    assert ix[..|ix|] == ix;
    forall i | 0 <= i < |x|
      ensures x'[i] == x[i]
    {
      if i in ix {
        var a :| 0 <= a < |ix| && ix[a] == i;
        assert x'[ix[a]] == u[a];
      }
    }
  }
}
