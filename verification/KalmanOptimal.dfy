// What the Kalman update achieves: no other gain has a smaller error covariance, and the new state is the best
// compromise between the old state and the measurement.
module KalmanOptimal {
  import opened Vectors
  import opened Kalman

  // ---------- bilinear forms ----------

  /** u' M w. */
  ghost function Form(M: Matrix, u: Vector, w: Vector): real
    requires IsMatrix(M, |u|, |w|)
  {
    Dot(u, MatVec(M, w), |u|)
  }

  ghost predicate Semidefinite(M: Matrix, n: nat)
    requires IsMatrix(M, n, n)
  {
    forall u: Vector :: |u| == n ==> Form(M, u, u) >= 0.0
  }

  ghost function Minus(u: Vector, w: Vector): (d: Vector)
    requires |u| == |w|
    ensures |d| == |u|
  {
    Axpby(1.0, u, -1.0, w)
  }

  /** A matrix moves to the other side of a product as its transpose. */
  lemma Adjoint(B: Matrix, rows: nat, cols: nat, u: Vector, y: Vector)
    requires IsMatrix(B, rows, cols) && |u| == rows && |y| == cols
    ensures Dot(u, MatVec(B, y), rows) == Dot(MatVec(Transpose(B, rows, cols), u), y, cols)
  {
    hide Dot;
    DotAssociates(u, B, y, rows);
    var p, q := VecMatTo(u, B, cols, rows), MatVec(Transpose(B, rows, cols), u);
    forall j | 0 <= j < cols
      ensures p[j] == q[j]
    {
      assert Transpose(B, rows, cols)[j] == Col(B, j);
      DotCommutes(u, Col(B, j), rows);
    }
    assert p == q;
  }

  lemma FormSymmetric(M: Matrix, n: nat, u: Vector, w: Vector)
    requires IsMatrix(M, n, n) && Symmetric(M, n) && |u| == |w| == n
    ensures Form(M, u, w) == Form(M, w, u)
  {
    hide Dot, MatVec;
    SymmetricIsTranspose(M, n);
    Adjoint(M, n, n, u, w);
    DotCommutes(MatVec(M, u), w, n);
  }

  lemma DotMinus(u: Vector, a: Vector, b: Vector, n: nat)
    requires |u| == |a| == |b| == n
    ensures Dot(u, Minus(a, b), n) == Dot(u, a, n) - Dot(u, b, n)
    ensures Dot(Minus(a, b), u, n) == Dot(a, u, n) - Dot(b, u, n)
  {
    hide Dot;
    DotLinear(Minus(a, b), 1.0, a, -1.0, b, u, n);
    DotCommutes(u, Minus(a, b), n);
    DotCommutes(u, a, n);
    DotCommutes(u, b, n);
  }

  lemma FormMinus(M: Matrix, n: nat, u: Vector, a: Vector, b: Vector)
    requires IsMatrix(M, n, n) && |u| == |a| == |b| == n
    ensures Form(M, u, Minus(a, b)) == Form(M, u, a) - Form(M, u, b)
    ensures Form(M, Minus(a, b), u) == Form(M, a, u) - Form(M, b, u)
  {
    hide Dot, MatVec;
    MatVecLinear(M, n, 1.0, a, -1.0, b);
    DotMinus(u, MatVec(M, a), MatVec(M, b), n);
    DotMinus(MatVec(M, u), a, b, n);
  }

  /** The form of a sum of matrices. */
  lemma FormCombine(a: real, M: Matrix, b: real, N: Matrix, n: nat, u: Vector, w: Vector)
    requires IsMatrix(M, n, n) && IsMatrix(N, n, n) && |u| == |w| == n
    ensures Form(Combine(a, M, b, N, n, n), u, w) == a * Form(M, u, w) + b * Form(N, u, w)
  {
    hide Dot;
    var C := Combine(a, M, b, N, n, n);
    var p, q, r := MatVec(C, w), MatVec(M, w), MatVec(N, w);
    forall i | 0 <= i < n
      ensures p[i] == a * q[i] + b * r[i]
    {
      DotLinear(C[i], a, M[i], b, N[i], w, n);
    }
    DotLinear(p, a, q, b, r, u, n);
    DotCommutes(u, p, n);
    DotCommutes(u, q, n);
    DotCommutes(u, r, n);
  }

  /** u' (B M B') w == (B' u)' M (B' w). */
  lemma FormCongruence(B: Matrix, M: Matrix, rows: nat, inner: nat, u: Vector, w: Vector)
    requires IsMatrix(B, rows, inner) && IsMatrix(M, inner, inner) && |u| == |w| == rows
    ensures var Bt := Transpose(B, rows, inner);
      Form(Mul(Mul(B, M, inner, inner), Bt, inner, rows), u, w) == Form(M, MatVec(Bt, u), MatVec(Bt, w))
  {
    hide Dot, MatVec;
    var Bt := Transpose(B, rows, inner);
    MatVecAssociates(Mul(B, M, inner, inner), Bt, w, inner);
    MatVecAssociates(B, M, MatVec(Bt, w), inner);
    Adjoint(B, rows, inner, u, MatVec(M, MatVec(Bt, w)));
  }

  lemma FormEntry(M: Matrix, n: nat, i: nat, j: nat)
    requires IsMatrix(M, n, n) && i < n && j < n
    ensures Form(M, Unit(n, i), Unit(n, j)) == M[i][j]
  {
    MatVecUnit(M, n, n, j);
    DotCommutes(Unit(n, i), Col(M, j), n);
    DotUnit(Col(M, j), n, i);
  }

  /** Matrices with the same forms are the same. */
  lemma FormsEqual(M: Matrix, N: Matrix, n: nat)
    requires IsMatrix(M, n, n) && IsMatrix(N, n, n)
    requires forall u: Vector, w: Vector :: |u| == |w| == n ==> Form(M, u, w) == Form(N, u, w)
    ensures M == N
  {
    hide Form;
    forall i, j | 0 <= i < n && 0 <= j < n
      ensures M[i][j] == N[i][j]
    {
      FormEntry(M, n, i, j);
      FormEntry(N, n, i, j);
      assert Form(M, Unit(n, i), Unit(n, j)) == Form(N, Unit(n, i), Unit(n, j));
    }
    MatrixEqual(M, N, n, n);
  }

  // ---------- the error covariance of any gain ----------

  /** I - G H'. */
  ghost function Residue(H: Matrix, G: Matrix, n: nat, m: nat): (A: Matrix)
    requires IsMatrix(H, n, m) && IsMatrix(G, n, m)
    ensures IsMatrix(A, n, n)
  {
    Combine(1.0, Identity(n), -1.0, Mul(G, Transpose(H, n, m), m, n), n, n)
  }

  /**
   * The error covariance of the estimate x + G v for an arbitrary gain G: the old error enters through I - G H', the
   * measurement error through G.
   */
  ghost function ErrorCovariance(P: Matrix, H: Matrix, R: Matrix, G: Matrix, n: nat, m: nat): (C: Matrix)
    requires IsMatrix(P, n, n) && IsMatrix(H, n, m) && IsMatrix(R, m, m) && IsMatrix(G, n, m)
    ensures IsMatrix(C, n, n)
  {
    var A := Residue(H, G, n, m);
    Combine(1.0, Mul(Mul(A, P, n, n), Transpose(A, n, n), n, n),
            1.0, Mul(Mul(G, R, m, m), Transpose(G, n, m), m, n), n, n)
  }

  /** (I - G H')' u == u - H (G' u). */
  lemma ResidueTransposed(H: Matrix, G: Matrix, n: nat, m: nat, u: Vector)
    requires IsMatrix(H, n, m) && IsMatrix(G, n, m) && |u| == n
    ensures MatVec(Transpose(Residue(H, G, n, m), n, n), u) == Minus(u, MatVec(H, MatVec(Transpose(G, n, m), u)))
  {
    hide Dot;
    var A, Ht, Gt := Residue(H, G, n, m), Transpose(H, n, m), Transpose(G, n, m);
    var GH := Mul(G, Ht, m, n);
    var x, y := MatVec(Transpose(A, n, n), u), MatVec(H, MatVec(Gt, u));
    TransposeMul(G, Ht, n, m, n);
    TransposeTwice(H, n, m);
    MatVecAssociates(H, Gt, u, m);
    forall i | 0 <= i < n
      ensures x[i] == u[i] - y[i]
    {
      var T := Transpose(GH, n, n);
      DotLinear(Transpose(A, n, n)[i], 1.0, Unit(n, i), -1.0, T[i], u, n);
      DotCommutes(Unit(n, i), u, n);
      DotUnit(u, n, i);
      assert y[i] == Dot(T[i], u, n);
    }
    assert x == Minus(u, y);
  }

  /** The form of the error covariance of G. */
  lemma ErrorForm(P: Matrix, H: Matrix, R: Matrix, G: Matrix, n: nat, m: nat, u: Vector, w: Vector)
    requires IsMatrix(P, n, n) && IsMatrix(H, n, m) && IsMatrix(R, m, m) && IsMatrix(G, n, m) && |u| == |w| == n
    ensures var g, h := MatVec(Transpose(G, n, m), u), MatVec(Transpose(G, n, m), w);
      Form(ErrorCovariance(P, H, R, G, n, m), u, w)
        == Form(P, Minus(u, MatVec(H, g)), Minus(w, MatVec(H, h))) + Form(R, g, h)
  {
    hide Form, Dot, MatVec, Residue;
    var A := Residue(H, G, n, m);
    var M, N := Mul(Mul(A, P, n, n), Transpose(A, n, n), n, n), Mul(Mul(G, R, m, m), Transpose(G, n, m), m, n);
    FormCombine(1.0, M, 1.0, N, n, u, w);
    FormCongruence(A, P, n, n, u, w);
    FormCongruence(G, R, n, m, u, w);
    ResidueTransposed(H, G, n, m, u);
    ResidueTransposed(H, G, n, m, w);
  }

  // ---------- completing the square ----------

  /** The innovation covariance is that of the predicted measurement plus that of the measurement. */
  lemma InnovationForm(P: Matrix, H: Matrix, R: Matrix, n: nat, m: nat, g: Vector, h: Vector)
    requires IsMatrix(P, n, n) && IsMatrix(H, n, m) && IsMatrix(R, m, m) && |g| == |h| == m
    ensures Form(Innovation(P, H, R, n, m), g, h) == Form(P, MatVec(H, g), MatVec(H, h)) + Form(R, g, h)
  {
    hide Dot, MatVec;
    var Ht, F := Transpose(H, n, m), Mul(P, H, n, m);
    FormCombine(1.0, Mul(Ht, F, n, m), 1.0, R, m, g, h);
    MatVecAssociates(Ht, F, h, n);
    MatVecAssociates(P, H, h, n);
    TransposeTwice(H, n, m);
    Adjoint(Ht, m, n, g, MatVec(P, MatVec(H, h)));
  }

  /** The best weights for u: K' u. */
  ghost function Best(P: Matrix, H: Matrix, Si: Matrix, n: nat, m: nat, u: Vector): (g: Vector)
    requires IsMatrix(P, n, n) && IsMatrix(H, n, m) && IsMatrix(Si, m, m) && |u| == n
    ensures |g| == m
  {
    MatVec(Transpose(Gain(P, H, Si, n, m), n, m), u)
  }

  /** They solve S g == H' P u, and with F == P H they are S^-1 F' u. */
  lemma BestSolves(P: Matrix, H: Matrix, R: Matrix, Si: Matrix, n: nat, m: nat, u: Vector)
    requires IsMatrix(P, n, n) && IsMatrix(H, n, m) && IsMatrix(R, m, m) && |u| == n
    requires Symmetric(P, n) && Symmetric(R, m) && IsInverse(Innovation(P, H, R, n, m), Si, m)
    ensures var S, g, f := Innovation(P, H, R, n, m), Best(P, H, Si, n, m, u), MatVec(Transpose(H, n, m), MatVec(P, u));
      && MatVec(S, g) == f && g == MatVec(Si, f)
      && f == MatVec(Transpose(Mul(P, H, n, m), n, m), u)
  {
    hide Dot, MatVec, Innovation;
    var S, F, Ft := Innovation(P, H, R, n, m), Mul(P, H, n, m), Transpose(Mul(P, H, n, m), n, m);
    InnovationSymmetric(P, H, R, n, m);
    InverseSymmetric(S, Si, m);
    SymmetricIsTranspose(Si, m);
    SymmetricIsTranspose(P, n);
    TransposeMul(F, Si, n, m, m);
    TransposeMul(P, H, n, n, m);
    MatVecAssociates(Si, Ft, u, m);
    MatVecAssociates(Transpose(H, n, m), P, u, n);
    MatVecAssociates(S, Si, MatVec(Ft, u), m);
    IdentityKeeps(MatVec(Ft, u), m);
  }

  lemma IdentityKeeps(u: Vector, n: nat)
    requires |u| == n
    ensures MatVec(Identity(n), u) == u
  {
    hide Dot;
    forall i | 0 <= i < n
      ensures Dot(Identity(n)[i], u, n) == u[i]
    {
      assert Identity(n)[i] == Unit(n, i);
      DotCommutes(Unit(n, i), u, n);
      DotUnit(u, n, i);
    }
  }

  /** The form of the new covariance. */
  lemma UpdatedForm(P: Matrix, H: Matrix, R: Matrix, Si: Matrix, n: nat, m: nat, u: Vector, w: Vector)
    requires IsMatrix(P, n, n) && IsMatrix(H, n, m) && IsMatrix(R, m, m) && |u| == |w| == n
    requires Symmetric(P, n) && Symmetric(R, m) && IsInverse(Innovation(P, H, R, n, m), Si, m)
    ensures var gu, gw := Best(P, H, Si, n, m, u), Best(P, H, Si, n, m, w);
      Form(UpdatedP(P, H, Gain(P, H, Si, n, m), n, m), u, w)
        == Form(P, u, w) - Form(Innovation(P, H, R, n, m), gu, gw)
  {
    hide Dot, MatVec, Innovation, Best;
    var S, F := Innovation(P, H, R, n, m), Mul(P, H, n, m);
    var gu, gw := Best(P, H, Si, n, m, u), Best(P, H, Si, n, m, w);
    var fu := MatVec(Transpose(F, n, m), u);
    UpdatedPForm(P, H, Si, n, m);
    FormCombine(-1.0, Mul(Mul(F, Si, m, m), Transpose(F, n, m), m, n), 1.0, P, n, u, w);
    FormCongruence(F, Si, n, m, u, w);
    BestSolves(P, H, R, Si, n, m, u);
    BestSolves(P, H, R, Si, n, m, w);
    InnovationSymmetric(P, H, R, n, m);
    FormSymmetric(S, m, gu, gw);
    DotCommutes(fu, gw, m);
  }

  /** With any weights g and h the error is that of the update plus the square of the distance from the best weights. */
  lemma SquareCompleted(P: Matrix, H: Matrix, R: Matrix, Si: Matrix, n: nat, m: nat, u: Vector, w: Vector, g: Vector,
                        h: Vector)
    requires IsMatrix(P, n, n) && IsMatrix(H, n, m) && IsMatrix(R, m, m) && |u| == |w| == n && |g| == |h| == m
    requires Symmetric(P, n) && Symmetric(R, m) && IsInverse(Innovation(P, H, R, n, m), Si, m)
    ensures var gu, gw := Best(P, H, Si, n, m, u), Best(P, H, Si, n, m, w);
      Form(P, Minus(u, MatVec(H, g)), Minus(w, MatVec(H, h))) + Form(R, g, h)
        == Form(UpdatedP(P, H, Gain(P, H, Si, n, m), n, m), u, w)
         + Form(Innovation(P, H, R, n, m), Minus(g, gu), Minus(h, gw))
  {
    hide Form, Innovation, Best, MatVec, UpdatedP, Minus;
    var S, gu, gw := Innovation(P, H, R, n, m), Best(P, H, Si, n, m, u), Best(P, H, Si, n, m, w);
    var a, b := MatVec(H, g), MatVec(H, h);
    FormMinus(P, n, Minus(u, a), w, b);
    FormMinus(P, n, w, u, a);
    FormMinus(P, n, b, u, a);
    FormMinus(S, m, Minus(g, gu), h, gw);
    FormMinus(S, m, h, g, gu);
    FormMinus(S, m, gw, g, gu);
    InnovationForm(P, H, R, n, m, g, h);
    UpdatedForm(P, H, R, Si, n, m, u, w);
    CrossTerm(P, H, R, Si, n, m, u, h);
    CrossTerm(P, H, R, Si, n, m, w, g);
    InnovationSymmetric(P, H, R, n, m);
    FormSymmetric(P, n, a, w);
    FormSymmetric(S, m, g, gw);
  }

  /** u' P H h == (K' u)' S h. */
  lemma CrossTerm(P: Matrix, H: Matrix, R: Matrix, Si: Matrix, n: nat, m: nat, u: Vector, h: Vector)
    requires IsMatrix(P, n, n) && IsMatrix(H, n, m) && IsMatrix(R, m, m) && |u| == n && |h| == m
    requires Symmetric(P, n) && Symmetric(R, m) && IsInverse(Innovation(P, H, R, n, m), Si, m)
    ensures Form(P, u, MatVec(H, h)) == Form(Innovation(P, H, R, n, m), Best(P, H, Si, n, m, u), h)
  {
    hide Dot, MatVec, Innovation, Best;
    var S, g := Innovation(P, H, R, n, m), Best(P, H, Si, n, m, u);
    BestSolves(P, H, R, Si, n, m, u);
    InnovationSymmetric(P, H, R, n, m);
    FormSymmetric(S, m, g, h);
    DotCommutes(h, MatVec(S, g), m);
    FormSymmetric(P, n, u, MatVec(H, h));
    DotCommutes(MatVec(H, h), MatVec(P, u), n);
    Adjoint(H, n, m, MatVec(P, u), h);
  }

  // ---------- what the update achieves ----------

  /** The new covariance is the error covariance of the gain in use: (I - K H') P (I - K H')' + K R K'. */
  lemma UpdateIsErrorCovariance(x: Vector, P: Matrix, H: Matrix, v: Vector, R: Matrix, n: nat, m: nat,
                                Si: Matrix, x': Vector, P': Matrix)
    requires Updated(x, P, H, v, R, n, m, Si, x', P') && Symmetric(P, n) && Symmetric(R, m)
    ensures P' == ErrorCovariance(P, H, R, Gain(P, H, Si, n, m), n, m)
  {
    hide Form, Innovation, MatVec, UpdatedP, Gain, ErrorCovariance, Mul;
    var K := Gain(P, H, Si, n, m);
    var C := ErrorCovariance(P, H, R, K, n, m);
    forall u: Vector, w: Vector | |u| == |w| == n
      ensures Form(C, u, w) == Form(P', u, w)
    {
      var g, h := Best(P, H, Si, n, m, u), Best(P, H, Si, n, m, w);
      ErrorForm(P, H, R, K, n, m, u, w);
      SquareCompleted(P, H, R, Si, n, m, u, w, g, h);
      ZeroForm(Innovation(P, H, R, n, m), m, g, h);
    }
    FormsEqual(C, P', n);
  }

  lemma ZeroForm(S: Matrix, m: nat, g: Vector, h: Vector)
    requires IsMatrix(S, m, m) && |g| == |h| == m
    ensures Form(S, Minus(g, g), Minus(h, h)) == 0.0
  {
    DotZeroTail(Minus(g, g), MatVec(S, Minus(h, h)), 0, m);
  }

  /**
   * For symmetric semidefinite P and R no gain has a smaller error than the one in use, in any direction u; in
   * particular no variance on the diagonal can be made smaller.
   */
  lemma GainIsOptimal(x: Vector, P: Matrix, H: Matrix, v: Vector, R: Matrix, n: nat, m: nat,
                      Si: Matrix, x': Vector, P': Matrix, G: Matrix)
    requires Updated(x, P, H, v, R, n, m, Si, x', P') && Symmetric(P, n) && Symmetric(R, m)
    requires Semidefinite(P, n) && Semidefinite(R, m) && IsMatrix(G, n, m)
    ensures IsMatrix(P', n, n)
    ensures forall u: Vector :: |u| == n ==> Form(ErrorCovariance(P, H, R, G, n, m), u, u) >= Form(P', u, u)
    ensures forall i :: 0 <= i < n ==> ErrorCovariance(P, H, R, G, n, m)[i][i] >= P'[i][i]
  {
    hide Form, Innovation, MatVec, UpdatedP, Gain, ErrorCovariance, Mul;
    var C := ErrorCovariance(P, H, R, G, n, m);
    forall u: Vector | |u| == n
      ensures Form(C, u, u) >= Form(P', u, u)
    {
      var g := MatVec(Transpose(G, n, m), u);
      var d := Minus(g, Best(P, H, Si, n, m, u));
      ErrorForm(P, H, R, G, n, m, u, u);
      SquareCompleted(P, H, R, Si, n, m, u, u, g, g);
      InnovationForm(P, H, R, n, m, d, d);
    }
    forall i | 0 <= i < n
      ensures C[i][i] >= P'[i][i]
    {
      FormEntry(C, n, i, i);
      FormEntry(P', n, i, i);
      assert Form(C, Unit(n, i), Unit(n, i)) >= Form(P', Unit(n, i), Unit(n, i));
    }
  }

  // ---------- the new state ----------

  /** How far z is from the old state and from the measurement, each weighed by its inverse covariance. */
  ghost function Misfit(x: Vector, Pi: Matrix, H: Matrix, v: Vector, Ri: Matrix, n: nat, m: nat, z: Vector): real
    requires |x| == |z| == n && |v| == m && IsMatrix(Pi, n, n) && IsMatrix(H, n, m) && IsMatrix(Ri, m, m)
  {
    var d := Minus(z, x);
    var r := Minus(MatVec(Transpose(H, n, m), d), v);
    Form(Pi, d, d) + Form(Ri, r, r)
  }

  ghost function Negated(s: Vector): (t: Vector)
    ensures |t| == |s| && forall i :: 0 <= i < |s| ==> t[i] == -s[i]
  {
    Axpby(-1.0, s, 0.0, s)
  }

  /** The form of a difference. */
  lemma SquareMinus(M: Matrix, n: nat, a: Vector, b: Vector)
    requires IsMatrix(M, n, n) && Symmetric(M, n) && |a| == |b| == n
    ensures Form(M, Minus(a, b), Minus(a, b)) == Form(M, a, a) - 2.0 * Form(M, b, a) + Form(M, b, b)
  {
    hide Form, Minus;
    FormMinus(M, n, Minus(a, b), a, b);
    FormMinus(M, n, a, a, b);
    FormMinus(M, n, b, a, b);
    FormSymmetric(M, n, a, b);
  }

  /** A vector is recovered from its image. */
  lemma InverseUndoes(M: Matrix, Mi: Matrix, n: nat, u: Vector)
    requires IsMatrix(M, n, n) && IsInverse(M, Mi, n) && |u| == n
    ensures MatVec(Mi, MatVec(M, u)) == u && MatVec(M, MatVec(Mi, u)) == u
  {
    hide MatVec;
    MatVecAssociates(Mi, M, u, n);
    MatVecAssociates(M, Mi, u, n);
    IdentityKeeps(u, n);
  }

  /** The step and the residual of the update, through the weighted innovation s == S^-1 v. */
  lemma StepAndResidual(x: Vector, P: Matrix, H: Matrix, v: Vector, R: Matrix, n: nat, m: nat,
                        Si: Matrix, x': Vector, P': Matrix) returns (s: Vector)
    requires Updated(x, P, H, v, R, n, m, Si, x', P')
    ensures |s| == m && Minus(x', x) == MatVec(P, MatVec(H, s))
    ensures Minus(MatVec(Transpose(H, n, m), Minus(x', x)), v) == Negated(MatVec(R, s))
  {
    hide Dot, MatVec, Innovation;
    s := MatVec(Si, v);
    var F := Mul(P, H, n, m);
    MatVecAssociates(F, Si, v, m);
    MatVecAssociates(P, H, s, n);
    assert Minus(x', x) == MatVec(P, MatVec(H, s));
    InverseUndoes(Innovation(P, H, R, n, m), Si, m, v);
    InnovationApplied(P, H, R, n, m, s);
    var t := MatVec(Transpose(H, n, m), Minus(x', x));
    assert Minus(t, v) == Negated(MatVec(R, s));
  }

  lemma InnovationApplied(P: Matrix, H: Matrix, R: Matrix, n: nat, m: nat, s: Vector)
    requires IsMatrix(P, n, n) && IsMatrix(H, n, m) && IsMatrix(R, m, m) && |s| == m
    ensures MatVec(Innovation(P, H, R, n, m), s)
         == Axpby(1.0, MatVec(Transpose(H, n, m), MatVec(P, MatVec(H, s))), 1.0, MatVec(R, s))
  {
    hide Dot;
    var Ht, F := Transpose(H, n, m), Mul(P, H, n, m);
    var Q := Mul(Ht, F, n, m);
    MatVecAssociates(Ht, F, s, n);
    MatVecAssociates(P, H, s, n);
    var S := Innovation(P, H, R, n, m);
    var a, b := MatVec(S, s), Axpby(1.0, MatVec(Q, s), 1.0, MatVec(R, s));
    forall i | 0 <= i < m
      ensures a[i] == b[i]
    {
      DotLinear(S[i], 1.0, Q[i], 1.0, R[i], s, m);
    }
  }

  /** The misfit of any z is that of the new state plus what their difference costs. */
  lemma MisfitSplits(x: Vector, P: Matrix, H: Matrix, v: Vector, R: Matrix, n: nat, m: nat,
                     Si: Matrix, x': Vector, P': Matrix, Pi: Matrix, Ri: Matrix, z: Vector)
    requires Updated(x, P, H, v, R, n, m, Si, x', P') && Symmetric(P, n) && Symmetric(R, m) && |z| == n
    requires IsInverse(P, Pi, n) && IsInverse(R, Ri, m)
    ensures |x'| == n
    ensures var e := Minus(x', z);
      var f := MatVec(Transpose(H, n, m), e);
      Misfit(x, Pi, H, v, Ri, n, m, z) == Misfit(x, Pi, H, v, Ri, n, m, x') + Form(Pi, e, e) + Form(Ri, f, f)
  {
    hide Dot, MatVec, Innovation, Updated;
    StateSize(x, P, H, v, R, n, m, Si, x', P');
    var s := StepAndResidual(x, P, H, v, R, n, m, Si, x', P');
    var Ht, d, e := Transpose(H, n, m), Minus(x', x), Minus(x', z);
    var r, f := Minus(MatVec(Ht, d), v), MatVec(Ht, e);
    assert Minus(z, x) == Minus(d, e);
    MatVecLinear(Ht, m, 1.0, d, -1.0, e);
    assert Minus(MatVec(Ht, Minus(z, x)), v) == Minus(r, f);
    InverseSymmetric(P, Pi, n);
    InverseSymmetric(R, Ri, m);
    SquareMinus(Pi, n, d, e);
    SquareMinus(Ri, m, r, f);
    InverseUndoes(P, Pi, n, MatVec(H, s));
    InverseUndoes(R, Ri, m, s);
    MatVecLinear(Ri, m, -1.0, MatVec(R, s), 0.0, MatVec(R, s));
    assert MatVec(Ri, r) == Negated(s);
    Adjoint(H, n, m, e, s);
    DotNegated(f, s, m);
  }

  lemma StateSize(x: Vector, P: Matrix, H: Matrix, v: Vector, R: Matrix, n: nat, m: nat,
                  Si: Matrix, x': Vector, P': Matrix)
    requires Updated(x, P, H, v, R, n, m, Si, x', P')
    ensures |x| == |x'| == n && |v| == m && IsMatrix(P, n, n) && IsMatrix(H, n, m) && IsMatrix(R, m, m)
  {
  }

  lemma DotNegated(f: Vector, s: Vector, m: nat)
    requires |f| == |s| == m
    ensures Dot(f, Negated(s), m) == -Dot(f, s, m)
  {
    hide Dot;
    DotLinear(Negated(s), -1.0, s, 0.0, s, f, m);
    DotCommutes(f, Negated(s), m);
    DotCommutes(f, s, m);
  }

  // ---------- inverses of semidefinite matrices ----------

  /** u' M^-1 u is y' M y for y == M^-1 u. */
  lemma InverseForm(M: Matrix, Mi: Matrix, n: nat, u: Vector)
    requires IsMatrix(M, n, n) && IsInverse(M, Mi, n) && |u| == n
    ensures Form(Mi, u, u) == Form(M, MatVec(Mi, u), MatVec(Mi, u))
  {
    hide Dot, MatVec;
    InverseUndoes(M, Mi, n, u);
    DotCommutes(u, MatVec(Mi, u), n);
  }

  /** Where a semidefinite form vanishes, the matrix vanishes. */
  lemma SemidefiniteNull(M: Matrix, n: nat, y: Vector, w: Vector)
    requires IsMatrix(M, n, n) && Symmetric(M, n) && Semidefinite(M, n) && |y| == |w| == n && Form(M, y, y) == 0.0
    ensures Form(M, w, y) == 0.0
  {
    hide Form;
    var a, c := Form(M, w, w), Form(M, w, y);
    if c != 0.0 {
      var t := (a + 1.0) / (2.0 * c);
      var b := Axpby(t, y, 0.0, y);
      FormScaled(M, n, t, y, w);
      FormScaled(M, n, t, y, b);
      FormScaled(M, n, t, y, y);
      FormSymmetric(M, n, y, b);
      FormSymmetric(M, n, w, b);
      assert t * c * 2.0 == a + 1.0;
      SquareMinus(M, n, w, b);
    }
  }

  lemma FormScaled(M: Matrix, n: nat, t: real, y: Vector, w: Vector)
    requires IsMatrix(M, n, n) && |y| == |w| == n
    ensures Form(M, w, Axpby(t, y, 0.0, y)) == t * Form(M, w, y)
  {
    hide Dot, MatVec;
    MatVecLinear(M, n, t, y, 0.0, y);
    var a, b := MatVec(M, y), Axpby(t, MatVec(M, y), 0.0, MatVec(M, y));
    DotLinear(b, t, a, 0.0, a, w, n);
    DotCommutes(w, a, n);
    DotCommutes(w, b, n);
  }

  /** The inverse of a symmetric semidefinite matrix is definite. */
  lemma InverseDefinite(M: Matrix, Mi: Matrix, n: nat, u: Vector)
    requires IsMatrix(M, n, n) && Symmetric(M, n) && Semidefinite(M, n) && IsInverse(M, Mi, n) && |u| == n
    ensures Form(Mi, u, u) >= 0.0
    ensures Form(Mi, u, u) == 0.0 ==> u == seq(n, _ => 0.0)
  {
    hide Form, MatVec;
    var y := MatVec(Mi, u);
    InverseForm(M, Mi, n, u);
    if Form(Mi, u, u) == 0.0 {
      InverseUndoes(M, Mi, n, u);
      forall i | 0 <= i < n
        ensures u[i] == 0.0
      {
        SemidefiniteNull(M, n, y, Unit(n, i));
        UnitForm(M, n, i, y);
      }
    }
  }

  lemma UnitForm(M: Matrix, n: nat, i: nat, y: Vector)
    requires IsMatrix(M, n, n) && i < n && |y| == n
    ensures Form(M, Unit(n, i), y) == MatVec(M, y)[i]
  {
    DotCommutes(Unit(n, i), MatVec(M, y), n);
    DotUnit(MatVec(M, y), n, i);
  }

  /**
   * For symmetric, semidefinite and invertible P and R the new state is the one and only minimum of the misfit to the
   * old state and the measurement.
   */
  lemma StateIsOptimal(x: Vector, P: Matrix, H: Matrix, v: Vector, R: Matrix, n: nat, m: nat,
                       Si: Matrix, x': Vector, P': Matrix, Pi: Matrix, Ri: Matrix, z: Vector)
    requires Updated(x, P, H, v, R, n, m, Si, x', P') && Symmetric(P, n) && Symmetric(R, m) && |z| == n
    requires Semidefinite(P, n) && Semidefinite(R, m) && IsInverse(P, Pi, n) && IsInverse(R, Ri, m)
    ensures |x'| == n && Misfit(x, Pi, H, v, Ri, n, m, z) >= Misfit(x, Pi, H, v, Ri, n, m, x')
    ensures Misfit(x, Pi, H, v, Ri, n, m, z) == Misfit(x, Pi, H, v, Ri, n, m, x') <==> z == x'
  {
    hide Form, MatVec, Updated, Misfit, Semidefinite;
    StateSize(x, P, H, v, R, n, m, Si, x', P');
    MisfitSplits(x, P, H, v, R, n, m, Si, x', P', Pi, Ri, z);
    var e := Minus(x', z);
    InverseDefinite(P, Pi, n, e);
    InverseDefinite(R, Ri, m, MatVec(Transpose(H, n, m), e));
    if Form(Pi, e, e) == 0.0 {
      forall i | 0 <= i < n
        ensures z[i] == x'[i]
      {
        assert e[i] == 0.0;
      }
      assert z == x';
    }
  }
}
