// The solver of cross.c in its own form: in-place Crout reduction with scaled partial pivoting,
// permuted substitution that skips the zero prefix, and the inverse built column by column.
module LuSolver {
  import opened Vectors
  import opened Grids
  import opened LuTheory

  function Abs(x: real): (a: real)
    ensures a >= 0.0 && (a == 0.0 <==> x == 0.0)
  {
    if x < 0.0 then -x else x
  }

  /** The implicit scaling: one over the largest magnitude of each row, or failure on a zero row. */
  method RowScales(A: array<real>, n: nat, vv: array<real>) returns (ok: bool)
    requires A.Length == n * n && vv.Length == n && A != vv
    modifies vv
    ensures ok ==> forall i :: 0 <= i < n ==> vv[i] > 0.0
    ensures !ok ==> !Invertible(Grid(A[..], n, n), n)
  {
    ghost var G := Grid(A[..], n, n);
    for i := 0 to n
      invariant forall k :: 0 <= k < i ==> vv[k] > 0.0
      invariant A[..] == old(A[..])
    {
      var big := 0.0;
      for j := 0 to n
        invariant big >= 0.0
        invariant big == 0.0 ==> forall c :: 0 <= c < j ==> G[i][c] == 0.0
        invariant forall k :: 0 <= k < i ==> vv[k] > 0.0
        invariant A[..] == old(A[..])
      {
        var x := Load(A, n, n, i, j);
        var tmp := Abs(x);
        if tmp > big {
          big := tmp;
        }
      }
      if big > 0.0 {
        vv[i] := 1.0 / big;
      } else {
        ZeroRowNotInvertible(G, n, i);
        return false;
      }
    }
    return true;
  }

  /** s = A[i][j] less the first m products of row i and column j. */
  method Residual(A: array<real>, n: nat, i: nat, j: nat, m: nat) returns (s: real)
    requires A.Length == n * n && i < n && j < n && m <= n
    ensures s == Grid(A[..], n, n)[i][j] - Dot(Grid(A[..], n, n)[i], Col(Grid(A[..], n, n), j), m)
  {
    hide Grid, Dot;
    ghost var G := Grid(A[..], n, n);
    ghost var row, column := G[i], Col(G, j);
    DotNone(row, column);
    s := Load(A, n, n, i, j);
    for k := 0 to m
      invariant s == G[i][j] - Dot(row, column, k)
    {
      var l := Load(A, n, n, i, k);
      var u := Load(A, n, n, k, j);
      DotStep(row, column, k);
      s := s - l * u;
    }
  }

  lemma DotNone(u: Vector, v: Vector)
    ensures Dot(u, v, 0) == 0.0
  {
  }

  lemma HalfFrame(G: Matrix, G': Matrix, R: Matrix, n: nat, i: nat, j: nat)
    requires IsMatrix(G, n, n) && IsMatrix(G', n, n) && IsMatrix(R, n, n) && i < n && j < n
    requires G'[i][j] == G[i][j]
    requires forall c :: 0 <= c < Min(i, j) ==> G'[i][c] == G[i][c] && G'[c][j] == G[c][j]
    ensures Half(G, R, n, i, j) <==> Half(G', R, n, i, j)
  {
    DotFrame(G[i], Col(G, j), G'[i], Col(G', j), Min(i, j));
  }

  /** Column j while its first i entries have been reduced. */
  ghost predicate ColumnProgress(G: Matrix, R: Matrix, n: nat, i: nat, j: nat) {
    && Reduced(G, R, n, j) && Untouched(G, R, n, j + 1) && i <= n && j < n
    && (forall p :: 0 <= p < i ==> Half(G, R, n, p, j))
    && (forall p :: i <= p < n ==> G[p][j] == R[p][j])
  }

  lemma ColumnStep(G: Matrix, R: Matrix, n: nat, i: nat, j: nat, s: real)
    requires ColumnProgress(G, R, n, i, j) && i < n
    requires s == G[i][j] - Dot(G[i], Col(G, j), Min(i, j))
    ensures ColumnProgress(Put(G, n, n, i, j, s), R, n, i + 1, j)
  {
    var G' := Put(G, n, n, i, j, s);
    ReducedFrame(G, G', R, n, j);
    forall p | 0 <= p < i + 1
      ensures Half(G', R, n, p, j)
    {
      if p < i {
        HalfFrame(G, G', R, n, p, j);
      } else {
        DotFrame(G[i], Col(G, j), G'[i], Col(G', j), Min(i, j));
      }
    }
  }

  /** Replace entry (i, j) by its residual. */
  method ReduceEntry(A: array<real>, n: nat, i: nat, j: nat, ghost R: Matrix) returns (s: real)
    requires A.Length == n * n && i < n
    requires ColumnProgress(Grid(A[..], n, n), R, n, i, j)
    modifies A
    ensures Grid(A[..], n, n) == Put(Grid(old(A[..]), n, n), n, n, i, j, s)
    ensures ColumnProgress(Grid(A[..], n, n), R, n, i + 1, j)
  {
    s := Residual(A, n, i, j, if i < j then i else j);
    ColumnStep(Grid(A[..], n, n), R, n, i, j, s);
    Store(A, n, n, i, j, s);
  }

  /** The magnitude of entry (i, j), scaled by the largest of its row. */
  ghost function ScaledEntry(G: Matrix, n: nat, vv: seq<real>, i: nat, j: nat): (x: real)
    requires IsMatrix(G, n, n) && |vv| == n && i < n && j < n
  {
    vv[i] * Abs(G[i][j])
  }

  lemma ScaledZero(G: Matrix, n: nat, vv: seq<real>, i: nat, j: nat)
    requires IsMatrix(G, n, n) && |vv| == n && i < n && j < n && vv[i] > 0.0
    ensures ScaledEntry(G, n, vv, i, j) >= 0.0
    ensures ScaledEntry(G, n, vv, i, j) == 0.0 <==> G[i][j] == 0.0
  {
  }

  /** Row p has the largest scaled entry of column j among rows j to i - 1. */
  ghost predicate Largest(G: Matrix, n: nat, vv: seq<real>, j: nat, i: nat, p: nat)
    requires IsMatrix(G, n, n) && |vv| == n && j < n && i <= n && p < n
  {
    forall k :: j <= k < i ==> ScaledEntry(G, n, vv, k, j) <= ScaledEntry(G, n, vv, p, j)
  }

  /** Rows j to i - 1 of column j have been searched. */
  ghost predicate Searched(G: Matrix, n: nat, j: nat, i: nat, vv: seq<real>, imax: nat, big: real)
    requires IsMatrix(G, n, n) && |vv| == n
  {
    && j <= imax < n && j <= i <= n
    && (i == j ==> big == 0.0)
    && (i > j ==> imax < i && big == ScaledEntry(G, n, vv, imax, j) && Largest(G, n, vv, j, i, imax))
  }

  lemma SearchStep(G: Matrix, G': Matrix, n: nat, j: nat, i: nat, vv: seq<real>, imax: nat, big: real, s: real,
                   tmp: real)
    requires IsMatrix(G, n, n) && |vv| == n && j <= i < n && G' == Put(G, n, n, i, j, s)
    requires Searched(G, n, j, i, vv, imax, big) && vv[i] > 0.0 && tmp == vv[i] * Abs(s)
    ensures Searched(G', n, j, i + 1, vv, if tmp >= big then i else imax, if tmp >= big then tmp else big)
  {
    ScaledZero(G', n, vv, i, j);
    assert ScaledEntry(G', n, vv, i, j) == tmp;
    forall k | j <= k < i
      ensures ScaledEntry(G', n, vv, k, j) == ScaledEntry(G, n, vv, k, j) <= big
    {
    }
    hide ScaledEntry;
  }

  lemma SearchEnds(G: Matrix, n: nat, j: nat, vv: seq<real>, imax: nat, big: real)
    requires IsMatrix(G, n, n) && |vv| == n && j < n && Searched(G, n, j, n, vv, imax, big)
    requires forall i :: 0 <= i < n ==> vv[i] > 0.0
    ensures Largest(G, n, vv, j, n, imax)
    ensures G[imax][j] == 0.0 ==> forall i :: j <= i < n ==> G[i][j] == 0.0
  {
    hide ScaledEntry;
    ScaledZero(G, n, vv, imax, j);
    forall i | j <= i < n
      ensures G[imax][j] == 0.0 ==> G[i][j] == 0.0
    {
      ScaledZero(G, n, vv, i, j);
    }
  }

  /** Reduce column j and choose the pivot row by scaled magnitude. */
  method ReduceColumn(A: array<real>, n: nat, j: nat, vv: array<real>, ghost R: Matrix) returns (imax: nat)
    requires A.Length == n * n && vv.Length == n && A != vv && j < n
    requires forall i :: 0 <= i < n ==> vv[i] > 0.0
    requires ColumnProgress(Grid(A[..], n, n), R, n, 0, j)
    modifies A
    ensures ColumnProgress(Grid(A[..], n, n), R, n, n, j)
    ensures j <= imax < n && Largest(Grid(A[..], n, n), n, vv[..], j, n, imax)
    ensures Grid(A[..], n, n)[imax][j] == 0.0 ==>
      forall i :: j <= i < n ==> Grid(A[..], n, n)[i][j] == 0.0
  {
    for i := 0 to j
      invariant ColumnProgress(Grid(A[..], n, n), R, n, i, j)
    {
      var _ := ReduceEntry(A, n, i, j, R);
    }
    imax := SearchColumn(A, n, j, vv, R);
  }

  method SearchColumn(A: array<real>, n: nat, j: nat, vv: array<real>, ghost R: Matrix) returns (imax: nat)
    requires A.Length == n * n && vv.Length == n && A != vv && j < n
    requires forall i :: 0 <= i < n ==> vv[i] > 0.0
    requires ColumnProgress(Grid(A[..], n, n), R, n, j, j)
    modifies A
    ensures ColumnProgress(Grid(A[..], n, n), R, n, n, j)
    ensures j <= imax < n && Largest(Grid(A[..], n, n), n, vv[..], j, n, imax)
    ensures Grid(A[..], n, n)[imax][j] == 0.0 ==>
      forall i :: j <= i < n ==> Grid(A[..], n, n)[i][j] == 0.0
  {
    hide ColumnProgress, Largest;
    var big := 0.0;
    imax := j;
    for i := j to n
      invariant ColumnProgress(Grid(A[..], n, n), R, n, i, j)
      invariant vv[..] == old(vv[..])
      invariant Searched(Grid(A[..], n, n), n, j, i, vv[..], imax, big)
    {
      ghost var G := Grid(A[..], n, n);
      var s := ReduceEntry(A, n, i, j, R);
      var tmp := vv[i] * Abs(s);
      SearchStep(G, Grid(A[..], n, n), n, j, i, vv[..], imax, big, s, tmp);
      if tmp >= big {
        big := tmp;
        imax := i;
      }
    }
    SearchEnds(Grid(A[..], n, n), n, j, vv[..], imax, big);
  }

  /** Exchange rows p and j across the whole array, factors included. */
  method SwapRows(A: array<real>, n: nat, j: nat, p: nat)
    requires A.Length == n * n && j < n && p < n
    modifies A
    ensures Grid(A[..], n, n) == Swap(Grid(old(A[..]), n, n), j, p)
  {
    ghost var G := Grid(A[..], n, n);
    ghost var S := Swap(G, j, p);
    for k := 0 to n
      invariant forall i, c :: 0 <= i < n && 0 <= c < n ==>
        Grid(A[..], n, n)[i][c] == if c < k then S[i][c] else G[i][c]
    {
      var tmp := Load(A, n, n, p, k);
      var other := Load(A, n, n, j, k);
      Store(A, n, n, p, k, other);
      Store(A, n, n, j, k, tmp);
    }
    MatrixEqual(Grid(A[..], n, n), S, n, n);
  }

  /** Column j of G with the entries below the diagonal multiplied by t. */
  ghost function ScaleBelow(G: Matrix, n: nat, j: nat, t: real): (S: Matrix)
    requires IsMatrix(G, n, n) && j < n
    ensures IsMatrix(S, n, n)
    ensures forall i, c :: 0 <= i < n && 0 <= c < n && (c != j || i <= j) ==> S[i][c] == G[i][c]
    ensures forall i :: j < i < n ==> S[i][j] == G[i][j] * t
  {
    seq(n, i requires 0 <= i < n => if i > j then G[i][j := G[i][j] * t] else G[i])
  }

  /** Divide the part of column j below the diagonal by the pivot. */
  method ScaleColumn(A: array<real>, n: nat, j: nat)
    requires A.Length == n * n && j < n && Grid(A[..], n, n)[j][j] != 0.0
    modifies A
    ensures Grid(A[..], n, n)
         == ScaleBelow(Grid(old(A[..]), n, n), n, j, 1.0 / Grid(old(A[..]), n, n)[j][j])
  {
    hide Grid, ScaledTo, ScaleBelow;
    ghost var G := Grid(A[..], n, n);
    ghost var t := 1.0 / G[j][j];
    if j != n - 1 {
      var pivot := Load(A, n, n, j, j);
      var tmp := 1.0 / pivot;
      ScaledStart(G, n, j, t);
      for i := j + 1 to n
        invariant ScaledTo(Grid(A[..], n, n), G, n, j, t, i)
      {
        var x := Load(A, n, n, i, j);
        ScaledStep(Grid(A[..], n, n), G, n, j, t, i, x * tmp);
        Store(A, n, n, i, j, x * tmp);
      }
      ScaledAll(Grid(A[..], n, n), G, n, j, t);
    } else {
      LastColumn(G, n, t);
    }
  }

  /** Rows before i of column j are scaled. */
  ghost predicate ScaledTo(G': Matrix, G: Matrix, n: nat, j: nat, t: real, i: nat)
    requires IsMatrix(G, n, n) && j < n
  {
    && IsMatrix(G', n, n)
    && forall p, c :: 0 <= p < n && 0 <= c < n ==> G'[p][c] == if p < i then ScaleBelow(G, n, j, t)[p][c] else G[p][c]
  }

  lemma ScaledStart(G: Matrix, n: nat, j: nat, t: real)
    requires IsMatrix(G, n, n) && j < n
    ensures ScaledTo(G, G, n, j, t, j + 1)
  {
  }

  lemma ScaledStep(G': Matrix, G: Matrix, n: nat, j: nat, t: real, i: nat, x: real)
    requires IsMatrix(G, n, n) && j < i < n && ScaledTo(G', G, n, j, t, i) && x == G'[i][j] * t
    ensures ScaledTo(Put(G', n, n, i, j, x), G, n, j, t, i + 1)
  {
    assert ScaleBelow(G, n, j, t)[i][j] == G[i][j] * t;
  }

  lemma ScaledAll(G': Matrix, G: Matrix, n: nat, j: nat, t: real)
    requires IsMatrix(G, n, n) && j < n && ScaledTo(G', G, n, j, t, n)
    ensures G' == ScaleBelow(G, n, j, t)
  {
    MatrixEqual(G', ScaleBelow(G, n, j, t), n, n);
  }

  lemma LastColumn(G: Matrix, n: nat, t: real)
    requires IsMatrix(G, n, n) && n > 0
    ensures G == ScaleBelow(G, n, n - 1, t)
  {
    MatrixEqual(G, ScaleBelow(G, n, n - 1, t), n, n);
  }

  lemma PivotBack(x: real, p: real)
    requires p != 0.0
    ensures x * (1.0 / p) * p == x
  {
  }

  lemma ScaledColumnReduced(G: Matrix, R: Matrix, n: nat, j: nat)
    requires ColumnProgress(G, R, n, n, j) && G[j][j] != 0.0
    ensures Reduced(ScaleBelow(G, n, j, 1.0 / G[j][j]), R, n, j + 1)
    ensures Untouched(ScaleBelow(G, n, j, 1.0 / G[j][j]), R, n, j + 1)
  {
    var G' := ScaleBelow(G, n, j, 1.0 / G[j][j]);
    ReducedFrame(G, G', R, n, j);
    forall i, c | 0 <= i < n && 0 <= c < j + 1
      ensures Done(G', R, n, i, c)
    {
      if c == j {
        assert Half(G, R, n, i, j);
        DotFrame(G[i], Col(G, j), G'[i], Col(G', j), Min(i, j));
        if i > j {
          PivotBack(G[i][j], G[j][j]);
        }
      }
    }
  }

  lemma SwapProgress(G: Matrix, R: Matrix, n: nat, j: nat, p: nat)
    requires ColumnProgress(G, R, n, n, j) && j <= p < n
    ensures ColumnProgress(Swap(G, j, p), Swap(R, j, p), n, n, j)
  {
    SwapReduced(G, R, n, j, p);
    SwapHalf(G, R, n, j, p);
  }

  /** The state between columns: interchanges so far, and the packed array. */
  ghost predicate Between(G: Matrix, A0: Matrix, idx: seq<int>, n: nat, j: nat) {
    && IsMatrix(A0, n, n) && ValidSwaps(idx, n, j)
    && Reduced(G, ApplySwaps(A0, idx, j), n, j) && Untouched(G, ApplySwaps(A0, idx, j), n, j)
  }

  lemma EnterColumn(G: Matrix, A0: Matrix, idx: seq<int>, n: nat, j: nat)
    requires Between(G, A0, idx, n, j) && j < n
    ensures ColumnProgress(G, ApplySwaps(A0, idx, j), n, 0, j)
  {
  }

  /** Recording the pivot row and exchanging rows keeps the column reduced. */
  lemma AfterSwap(G: Matrix, A0: Matrix, idx: seq<int>, n: nat, j: nat, p: nat)
    requires IsMatrix(A0, n, n) && j <= p < n && j < |idx| && ValidSwaps(idx, n, j)
    requires ColumnProgress(G, ApplySwaps(A0, idx, j), n, n, j)
    ensures ValidSwaps(idx[j := p], n, j + 1)
    ensures ColumnProgress(Swap(G, j, p), ApplySwaps(A0, idx[j := p], j + 1), n, n, j)
    ensures SwapSign(idx[j := p], j + 1) == if j == p then SwapSign(idx, j) else -SwapSign(idx, j)
  {
    var idx' := idx[j := p];
    assert idx'[..j] == idx[..j];
    SwapsFrame(A0, idx, idx', j);
    SwapSignFrame(idx, idx', j);
    SwapProgress(G, ApplySwaps(A0, idx, j), n, j, p);
  }

  lemma SwapZeroColumn(G: Matrix, n: nat, j: nat, p: nat)
    requires IsMatrix(G, n, n) && j <= p < n
    requires G[p][j] == 0.0 ==> forall i :: j <= i < n ==> G[i][j] == 0.0
    ensures Swap(G, j, p)[j][j] == 0.0 ==> forall i :: j <= i < n ==> Swap(G, j, p)[i][j] == 0.0
  {
  }

  lemma FailedColumn(G: Matrix, A0: Matrix, idx: seq<int>, n: nat, j: nat)
    requires IsMatrix(A0, n, n) && j < n && ValidSwaps(idx, n, j + 1)
    requires ColumnProgress(G, ApplySwaps(A0, idx, j + 1), n, n, j)
    requires forall i :: j <= i < n ==> G[i][j] == 0.0
    ensures !Invertible(A0, n)
  {
    ZeroPivotNotInvertible(G, A0, ApplySwaps(A0, idx, j + 1), idx, n, j);
  }

  /** One column: reduce, exchange, check the pivot, scale. */
  method FactorColumn(A: array<real>, n: nat, indx: array<int>, j: nat, vv: array<real>, ghost A0: Matrix)
    returns (ok: bool, exchanged: bool)
    requires A.Length == n * n && indx.Length == n && vv.Length == n && A != vv && j < n
    requires forall i :: 0 <= i < n ==> vv[i] > 0.0
    requires Between(Grid(A[..], n, n), A0, indx[..], n, j)
    modifies A, indx, vv
    ensures forall i :: 0 <= i < n ==> vv[i] > 0.0
    ensures ok ==> Between(Grid(A[..], n, n), A0, indx[..], n, j + 1)
    ensures ok && exchanged ==> SwapSign(indx[..], j + 1) == -old(SwapSign(indx[..], j))
    ensures ok && !exchanged ==> SwapSign(indx[..], j + 1) == old(SwapSign(indx[..], j))
    ensures !ok ==> !Invertible(A0, n)
  {
    hide ColumnProgress, Untouched, Reduced;
    ghost var idx := indx[..];
    EnterColumn(Grid(A[..], n, n), A0, idx, n, j);
    var imax := ReduceColumn(A, n, j, vv, ApplySwaps(A0, idx, j));
    ghost var G := Grid(A[..], n, n);
    AfterSwap(G, A0, idx, n, j, imax);
    SwapZeroColumn(G, n, j, imax);
    exchanged := j != imax;
    if j != imax {
      SwapRows(A, n, j, imax);
      vv[imax] := vv[j];
    }
    indx[j] := imax;
    ghost var G' := Swap(G, j, imax);
    assert Grid(A[..], n, n) == G' && indx[..] == idx[j := imax as int];
    var pivot := Load(A, n, n, j, j);
    if pivot == 0.0 {
      FailedColumn(G', A0, indx[..], n, j);
      return false, exchanged;
    }
    ScaleColumn(A, n, j);
    ScaledColumnReduced(G', ApplySwaps(A0, indx[..], j + 1), n, j);
    return true, exchanged;
  }

  /** LU decomposition.  Failure is reported exactly on matrices without an inverse. */
  method Ludcmp(A: array<real>, n: nat, indx: array<int>) returns (info: int, d: real)
    requires A.Length == n * n && indx.Length == n
    modifies A, indx
    ensures info == 0 || info == -1
    ensures info == 0 ==>
      Factored(Grid(A[..], n, n), Grid(old(A[..]), n, n), indx[..], n) && d == SwapSign(indx[..], n)
    ensures info == -1 ==> !Invertible(Grid(old(A[..]), n, n), n)
  {
    ghost var A0 := Grid(A[..], n, n);
    var vv := new real[n];
    d := 1.0;
    var ok := RowScales(A, n, vv);
    if !ok {
      return -1, d;
    }
    assert Between(A0, A0, indx[..], n, 0);
    for j := 0 to n
      invariant Between(Grid(A[..], n, n), A0, indx[..], n, j)
      invariant d == SwapSign(indx[..], j)
      invariant forall i :: 0 <= i < n ==> vv[i] > 0.0
    {
      var good, exchanged := FactorColumn(A, n, indx, j, vv, A0);
      if exchanged {
        d := -d;
      }
      if !good {
        return -1, d;
      }
    }
    return 0, d;
  }

  // ---------- substitution ----------

  /** b after i steps of forward substitution: i entries of y, then the permuted right-hand side. */
  ghost predicate Forward(G: Matrix, b0: Vector, idx: seq<int>, n: nat, b: Vector, i: nat) {
    && IsMatrix(G, n, n) && |b| == |b0| == n && i <= n && ValidSwaps(idx, n, n)
    && (forall p :: i <= p < n ==> b[p] == ApplySwaps(b0, idx, i)[p])
    && (forall p :: 0 <= p < i ==> Dot(G[p], b, p) + b[p] == ApplySwaps(b0, idx, n)[p])
  }

  lemma ForwardStep(G: Matrix, b0: Vector, idx: seq<int>, n: nat, b: Vector, i: nat, b': Vector, y: real)
    requires Forward(G, b0, idx, n, b, i) && i < n && |b'| == n
    requires b' == b[idx[i] := b[i]][i := y]
    requires y == b[idx[i]] - Dot(G[i], b, i)
    ensures Forward(G, b0, idx, n, b', i + 1)
  {
    SwapsStable(b0, idx, i, n);
    forall p | 0 <= p < i + 1
      ensures Dot(G[p], b', p) + b'[p] == ApplySwaps(b0, idx, n)[p]
    {
      DotFrame(G[p], b, G[p], b', p);
    }
  }

  lemma ForwardEnds(G: Matrix, b0: Vector, idx: seq<int>, n: nat, y: Vector)
    requires Forward(G, b0, idx, n, y, n)
    ensures MatVec(Lower(G, n, n), y) == ApplySwaps(b0, idx, n)
  {
    forall p | 0 <= p < n
      ensures Dot(Lower(G, n, n)[p], y, n) == ApplySwaps(b0, idx, n)[p]
    {
      LowerRowDot(G[p], n, p, y);
      assert Lower(G, n, n)[p] == LowerRow(G[p], n, n, p);
    }
  }

  lemma LowerRowDot(g: Vector, n: nat, p: nat, y: Vector)
    requires |g| == |y| == n && p < n
    ensures Dot(LowerRow(g, n, n, p), y, n) == Dot(g, y, p) + y[p]
  {
    var l := LowerRow(g, n, n, p);
    DotZeroTail(l, y, p + 1, n);
    DotFrame(l, y, g, y, p);
  }

  /** The sum of g[t] * x[t] over lo <= t < hi. */
  ghost function Range(g: Vector, x: Vector, lo: nat, hi: nat): real
    requires lo <= hi <= |g| && hi <= |x|
  {
    Dot(g, x, hi) - Dot(g, x, lo)
  }

  /** Rows i and below of U x = y hold; entries above i still hold y. */
  ghost predicate Backward(G: Matrix, y: Vector, n: nat, x: Vector, i: nat) {
    && IsMatrix(G, n, n) && |x| == |y| == n && i <= n
    && (forall p :: 0 <= p < i ==> x[p] == y[p])
    && (forall p :: i <= p < n ==> RowSolved(G[p], y[p], n, x, p))
  }

  ghost predicate RowSolved(g: Vector, y: real, n: nat, x: Vector, p: nat)
    requires |g| == |x| == n && p < n
  {
    Range(g, x, p + 1, n) + Times(g[p], x[p]) == y
  }

  lemma BackwardStep(G: Matrix, y: Vector, n: nat, x: Vector, i: nat, s: real)
    requires Backward(G, y, n, x, i + 1) && i < n && G[i][i] != 0.0
    requires s == y[i] - Range(G[i], x, i + 1, n)
    ensures Backward(G, y, n, x[i := s / G[i][i]], i)
  {
    var v := s / G[i][i];
    forall p | i <= p < n
      ensures RowSolved(G[p], y[p], n, x[i := v], p)
    {
      RowUpdate(G[p], n, x, p, i, v);
      if p == i {
        assert G[i][i] * v == s;
      }
    }
  }

  lemma RowUpdate(g: Vector, n: nat, x: Vector, p: nat, i: nat, v: real)
    requires |g| == |x| == n && i <= p < n
    ensures Range(g, x[i := v], p + 1, n) == Range(g, x, p + 1, n)
  {
    DotUpdate(g, x, i, v, n);
    DotUpdate(g, x, i, v, p + 1);
  }

  lemma BackwardEnds(G: Matrix, y: Vector, n: nat, x: Vector)
    requires Backward(G, y, n, x, 0)
    ensures MatVec(Upper(G, n), x) == y
  {
    forall p | 0 <= p < n
      ensures Dot(Upper(G, n)[p], x, n) == y[p]
    {
      assert RowSolved(G[p], y[p], n, x, p);
      assert Upper(G, n)[p] == UpperRow(G[p], n, p);
      UpperRowDot(G[p], n, p, x, n);
    }
  }

  lemma {:induction false} UpperRowDot(g: Vector, n: nat, i: nat, x: Vector, k: nat)
    requires |g| == |x| == n && i < k <= n
    ensures Dot(UpperRow(g, n, i), x, k) == Range(g, x, i + 1, k) + Times(g[i], x[i])
  {
    hide Dot, Times;
    var u := UpperRow(g, n, i);
    if k == i + 1 {
      DotStep(u, x, i);
      DotZeroTail(u, x, 0, i);
      DotNone(u, x);
    } else {
      UpperRowDot(g, n, i, x, k - 1);
      SameTerm(u, g, x, k - 1);
    }
  }

  lemma SameTerm(u: Vector, g: Vector, x: Vector, k: nat)
    requires k < |u| && k < |g| && k < |x| && u[k] == g[k]
    ensures Dot(u, x, k + 1) - Dot(u, x, k) == Dot(g, x, k + 1) - Dot(g, x, k)
  {
  }

  lemma Solved(G: Matrix, A0: Matrix, idx: seq<int>, n: nat, b0: Vector, y: Vector, x: Vector)
    requires Factored(G, A0, idx, n) && |b0| == n
    requires Forward(G, b0, idx, n, y, n) && Backward(G, y, n, x, 0)
    ensures MatVec(A0, x) == b0
  {
    ForwardEnds(G, b0, idx, n, y);
    BackwardEnds(G, y, n, x);
    SubstitutionSolves(G, A0, idx, n, b0, y, x);
  }

  /** s0 less the products of row i of B with b over lo <= j < hi: the inner loop of both sweeps. */
  method Eliminate(B: array<real>, n: nat, b: array<real>, off: nat, i: nat, lo: nat, hi: nat, s0: real)
    returns (s: real)
    requires B.Length == n * n && i < n && lo <= hi <= n && off + n <= b.Length
    ensures s == s0 - Range(Grid(B[..], n, n)[i], b[off..off + n], lo, hi)
  {
    hide Grid, Dot;
    ghost var row, v := Grid(B[..], n, n)[i], b[off..off + n];
    s := s0;
    for j := lo to hi
      invariant s == s0 - Range(row, v, lo, j)
    {
      var g := Load(B, n, n, i, j);
      assert b[off + j] == v[j];
      DotStep(row, v, j);
      s := s - g * b[off + j];
    }
  }

  /** Solve for one right-hand side stored at b[off..off + n]. */
  method Lubksb(B: array<real>, n: nat, indx: array<int>, b: array<real>, off: nat, ghost A0: Matrix)
    requires B.Length == n * n && indx.Length == n && off + n <= b.Length && B != b
    requires Factored(Grid(B[..], n, n), A0, indx[..], n)
    modifies b
    ensures MatVec(A0, b[off..off + n]) == old(b[off..off + n])
    ensures forall k :: 0 <= k < b.Length && !(off <= k < off + n) ==> b[k] == old(b[k])
  {
    ghost var G, b0, idx := Grid(B[..], n, n), b[off..off + n], indx[..];
    ForwardSweep(B, n, indx, b, off, G, b0);
    ghost var y := b[off..off + n];
    BackwardSweep(B, n, b, off, G, y);
    Solved(G, A0, idx, n, b0, y, b[off..off + n]);
  }

  /** Unscramble the permutation while solving L y = P b; leading zeros of y are skipped. */
  method ForwardSweep(B: array<real>, n: nat, indx: array<int>, b: array<real>, off: nat, ghost G: Matrix,
                      ghost b0: Vector)
    requires B.Length == n * n && indx.Length == n && off + n <= b.Length && B != b
    requires ValidSwaps(indx[..], n, n) && G == Grid(B[..], n, n) && b0 == b[off..off + n]
    modifies b
    ensures Forward(G, b0, indx[..], n, b[off..off + n], n)
    ensures forall k :: 0 <= k < b.Length && !(off <= k < off + n) ==> b[k] == old(b[k])
  {
    hide Grid;
    var ii := -1;
    for i := 0 to n
      invariant B[..] == old(B[..]) && indx[..] == old(indx[..])
      invariant Forward(G, b0, indx[..], n, b[off..off + n], i)
      invariant -1 <= ii < i
      invariant ZeroPrefix(b[off..off + n], if ii < 0 then i else ii)
      invariant forall k :: 0 <= k < b.Length && !(off <= k < off + n) ==> b[k] == old(b[k])
    {
      ii := ForwardRow(B, n, indx, b, off, G, b0, i, ii);
    }
  }

  ghost predicate ZeroPrefix(v: Vector, k: int) {
    k <= |v| && forall t :: 0 <= t < k ==> v[t] == 0.0
  }

  /** Row i of the forward sweep; ii is the first nonzero entry of y, or -1 while there is none. */
  method ForwardRow(B: array<real>, n: nat, indx: array<int>, b: array<real>, off: nat, ghost G: Matrix,
                    ghost b0: Vector, i: nat, ii: int) returns (first: int)
    requires B.Length == n * n && indx.Length == n && off + n <= b.Length && B != b
    requires ValidSwaps(indx[..], n, n) && G == Grid(B[..], n, n) && i < n && -1 <= ii < i
    requires Forward(G, b0, indx[..], n, b[off..off + n], i)
    requires ZeroPrefix(b[off..off + n], if ii < 0 then i else ii)
    modifies b
    ensures Forward(G, b0, indx[..], n, b[off..off + n], i + 1)
    ensures -1 <= first < i + 1
    ensures ZeroPrefix(b[off..off + n], if first < 0 then i + 1 else first)
    ensures forall k :: 0 <= k < b.Length && !(off <= k < off + n) ==> b[k] == old(b[k])
  {
    hide Grid, Forward;
    assert |b0| == n && IsMatrix(G, n, n) by {
      ForwardShape(G, b0, indx[..], n, b[off..off + n], i);
    }
    ghost var v := b[off..off + n];
    var ip := indx[i];
    var s := b[off + ip];
    b[off + ip] := b[off + i];
    ghost var w := b[off..off + n];
    assert w == v[ip := v[i]];
    DotFrame(G[i], v, G[i], w, i);
    first := ii;
    if ii >= 0 {
      DotZeroTail(G[i], w, 0, ii);
      s := Eliminate(B, n, b, off, i, ii, i, s);
    } else {
      DotZeroTail(G[i], w, 0, i);
      if s != 0.0 {
        first := i;
      }
    }
    b[off + i] := s;
    ghost var r := b[off..off + n];
    assert r == w[i := s];
    ForwardStep(G, b0, indx[..], n, v, i, r, s);
  }

  lemma ForwardShape(G: Matrix, b0: Vector, idx: seq<int>, n: nat, b: Vector, i: nat)
    requires Forward(G, b0, idx, n, b, i)
    ensures |b| == |b0| == n && IsMatrix(G, n, n)
  {
  }

  /** Solve U x = y from the last row up. */
  method BackwardSweep(B: array<real>, n: nat, b: array<real>, off: nat, ghost G: Matrix, ghost y: Vector)
    requires B.Length == n * n && off + n <= b.Length && B != b
    requires G == Grid(B[..], n, n) && y == b[off..off + n]
    requires forall k :: 0 <= k < n ==> G[k][k] != 0.0
    modifies b
    ensures Backward(G, y, n, b[off..off + n], 0)
    ensures forall k :: 0 <= k < b.Length && !(off <= k < off + n) ==> b[k] == old(b[k])
  {
    hide Dot, Grid;
    for i := n downto 0
      invariant B[..] == old(B[..])
      invariant Backward(G, y, n, b[off..off + n], i)
      invariant forall k :: 0 <= k < b.Length && !(off <= k < off + n) ==> b[k] == old(b[k])
    {
      ghost var x := b[off..off + n];
      var s := b[off + i];
      assert s == x[i] == y[i];
      s := Eliminate(B, n, b, off, i, i + 1, n, s);
      var pivot := Load(B, n, n, i, i);
      BackwardStep(G, y, n, x, i, s);
      b[off + i] := s / pivot;
      assert b[off..off + n] == x[i := s / pivot];
    }
  }

  lemma ColumnBound(n: nat, j: nat)
    requires j < n
    ensures 0 <= j * n && j * n + n <= n * n
  {
    assert (j + 1) * n <= n * n;
  }

  /** Column j of the array, as lubksb sees it through the pointer A + j * n. */
  lemma ColumnSlice(s: seq<real>, n: nat, j: nat, off: nat)
    requires |s| == n * n && j < n && off == j * n && off + n <= |s|
    ensures s[off..off + n] == Col(Grid(s, n, n), j)
  {
    var G := Grid(s, n, n);
    forall i | 0 <= i < n
      ensures s[off..off + n][i] == Col(G, j)[i]
    {
      assert Ix(i, j, n, n) == off + i;
      assert G[i][j] == s[off + i];
    }
  }

  /** Another column lies outside the slice of column j. */
  lemma OutsideColumn(n: nat, j: nat, i: nat, c: nat)
    requires j < n && c < n && c != j && i < n
    ensures !(j * n <= Ix(i, c, n, n) < j * n + n)
  {
    if c < j {
      assert (c + 1) * n <= j * n;
    } else {
      assert (j + 1) * n <= c * n;
    }
  }

  /** Writing one column leaves the others. */
  lemma OtherColumn(s: seq<real>, t: seq<real>, n: nat, j: nat, off: nat, c: nat)
    requires |s| == n * n == |t| && j < n && c < n && c != j && off == j * n
    requires forall k :: 0 <= k < |s| && !(off <= k < off + n) ==> t[k] == s[k]
    ensures Col(Grid(t, n, n), c) == Col(Grid(s, n, n), c)
  {
    var G, G' := Grid(s, n, n), Grid(t, n, n);
    forall i | 0 <= i < n
      ensures Col(G', c)[i] == Col(G, c)[i]
    {
      OutsideColumn(n, j, i, c);
      var k := Ix(i, c, n, n);
      assert G'[i][c] == t[k] && G[i][c] == s[k];
    }
  }

  /** In-place inverse.  It succeeds exactly on invertible matrices and otherwise changes nothing. */
  method Matinv(A: array<real>, n: nat) returns (info: int)
    requires A.Length == n * n
    modifies A
    ensures info == 0 || info == -1
    ensures info == 0 <==> Invertible(Grid(old(A[..]), n, n), n)
    ensures info == 0 ==> IsInverse(Grid(old(A[..]), n, n), Grid(A[..], n, n), n)
    ensures info != 0 ==> A[..] == old(A[..])
  {
    ghost var A0 := Grid(A[..], n, n);
    var B := Copy(A);
    var indx := new int[n];
    var r, d := Ludcmp(B, n, indx);
    if r != 0 {
      return -1;
    }
    for j := 0 to n
      invariant Factored(Grid(B[..], n, n), A0, indx[..], n)
      invariant forall c :: 0 <= c < j ==> MatVec(A0, Col(Grid(A[..], n, n), c)) == Unit(n, c)
    {
      InverseColumn(A, n, j, B, indx, A0);
    }
    RightInverseIsInverse(Grid(B[..], n, n), A0, indx[..], n, Grid(A[..], n, n));
    return 0;
  }

  method Copy(A: array<real>) returns (B: array<real>)
    ensures fresh(B) && B[..] == A[..]
  {
    B := new real[A.Length];
    for k := 0 to A.Length
      invariant B[..k] == A[..k]
    {
      B[k] := A[k];
    }
  }

  /** Solve for the unit vector j in place of column j of A. */
  method InverseColumn(A: array<real>, n: nat, j: nat, B: array<real>, indx: array<int>, ghost A0: Matrix)
    requires A.Length == n * n && B.Length == n * n && indx.Length == n && A != B && j < n
    requires Factored(Grid(B[..], n, n), A0, indx[..], n)
    modifies A
    ensures MatVec(A0, Col(Grid(A[..], n, n), j)) == Unit(n, j)
    ensures forall c :: 0 <= c < n && c != j ==> Col(Grid(A[..], n, n), c) == Col(Grid(old(A[..]), n, n), c)
  {
    hide Factored;
    ghost var s0 := A[..];
    ColumnBound(n, j);
    var off := j * n;
    SetUnit(A, n, j, off);
    Lubksb(B, n, indx, A, off, A0);
    ColumnSlice(A[..], n, j, off);
    forall c | 0 <= c < n && c != j
      ensures Col(Grid(A[..], n, n), c) == Col(Grid(s0, n, n), c)
    {
      OtherColumn(s0, A[..], n, j, off, c);
    }
  }

  /** Write the unit vector j at A[off..off + n]. */
  method SetUnit(A: array<real>, n: nat, j: nat, off: nat)
    requires off + n <= A.Length && j < n
    modifies A
    ensures A[off..off + n] == Unit(n, j)
    ensures forall k :: 0 <= k < A.Length && !(off <= k < off + n) ==> A[k] == old(A[k])
  {
    for i := 0 to n
      invariant A[off..off + i] == seq(i, _ => 0.0)
      invariant forall k :: 0 <= k < A.Length && !(off <= k < off + n) ==> A[k] == old(A[k])
    {
      A[off + i] := 0.0;
      assert A[off..off + i + 1] == A[off..off + i] + [0.0];
    }
    A[off + j] := 1.0;
  }
}
