// Column-major storage: cross.c keeps a rows x cols matrix in a flat array, entry (i, j) at
// i + j * rows.  Grid is the matrix such an array holds.
module Grids {
  import opened Vectors

  function Ix(i: nat, j: nat, rows: nat, cols: nat): (x: nat)
    requires i < rows && j < cols
    ensures x < rows * cols
  {
    IxBound(i, j, rows, cols);
    i + j * rows
  }

  lemma IxBound(i: nat, j: nat, rows: nat, cols: nat)
    requires i < rows && j < cols
    ensures 0 <= i + j * rows < rows * cols
  {
    assert (j + 1) * rows <= cols * rows;
  }

  /** Distinct entries have distinct places. */
  lemma IxInjective(i: nat, j: nat, i': nat, j': nat, rows: nat, cols: nat)
    requires i < rows && j < cols && i' < rows && j' < cols
    ensures Ix(i, j, rows, cols) == Ix(i', j', rows, cols) ==> i == i' && j == j'
  {
    if j < j' {
      assert (j + 1) * rows <= j' * rows;
    } else if j' < j {
      assert (j' + 1) * rows <= j * rows;
    }
  }

  ghost function Grid(s: seq<real>, rows: nat, cols: nat): (G: Matrix)
    requires |s| == rows * cols
    ensures IsMatrix(G, rows, cols)
    ensures forall i, j :: 0 <= i < rows && 0 <= j < cols ==> G[i][j] == s[Ix(i, j, rows, cols)]
  {
    seq(rows, i requires 0 <= i < rows => GridRow(s, rows, cols, i))
  }

  ghost function GridRow(s: seq<real>, rows: nat, cols: nat, i: nat): (v: Vector)
    requires |s| == rows * cols && i < rows
    ensures |v| == cols && forall j :: 0 <= j < cols ==> v[j] == s[Ix(i, j, rows, cols)]
  {
    seq(cols, j requires 0 <= j < cols => s[Ix(i, j, rows, cols)])
  }

  ghost function Put(G: Matrix, rows: nat, cols: nat, i: nat, j: nat, x: real): (G': Matrix)
    requires IsMatrix(G, rows, cols) && i < rows && j < cols
    ensures IsMatrix(G', rows, cols)
    ensures forall p, q :: 0 <= p < rows && 0 <= q < cols ==>
      G'[p][q] == if p == i && q == j then x else G[p][q]
  {
    G[i := G[i][j := x]]
  }

  /** Storing into the flat array stores into one matrix entry. */
  lemma GridPut(s: seq<real>, rows: nat, cols: nat, i: nat, j: nat, x: real)
    requires |s| == rows * cols && i < rows && j < cols
    ensures Grid(s[Ix(i, j, rows, cols) := x], rows, cols) == Put(Grid(s, rows, cols), rows, cols, i, j, x)
  {
    var s' := s[Ix(i, j, rows, cols) := x];
    forall p, q | 0 <= p < rows && 0 <= q < cols
      ensures Grid(s', rows, cols)[p][q] == Put(Grid(s, rows, cols), rows, cols, i, j, x)[p][q]
    {
      IxInjective(i, j, p, q, rows, cols);
    }
    MatrixEqual(Grid(s', rows, cols), Put(Grid(s, rows, cols), rows, cols, i, j, x), rows, cols);
  }

  /** The expression A[i + j * rows]. */
  method Load(A: array<real>, rows: nat, cols: nat, i: nat, j: nat) returns (x: real)
    requires A.Length == rows * cols && i < rows && j < cols
    ensures x == Grid(A[..], rows, cols)[i][j]
  {
    x := A[Ix(i, j, rows, cols)];
  }

  /** The assignment A[i + j * rows] = x. */
  method Store(A: array<real>, rows: nat, cols: nat, i: nat, j: nat, x: real)
    requires A.Length == rows * cols && i < rows && j < cols
    modifies A
    ensures Grid(A[..], rows, cols) == Put(Grid(old(A[..]), rows, cols), rows, cols, i, j, x)
  {
    GridPut(A[..], rows, cols, i, j, x);
    ghost var s := A[..];
    A[Ix(i, j, rows, cols)] := x;
    assert A[..] == s[Ix(i, j, rows, cols) := x];
  }

  /** The operand of a product: the matrix itself under 'N', its transpose under any other letter. */
  ghost function Operand(tr: char, s: seq<real>, rows: nat, cols: nat): (M: Matrix)
    requires |s| == rows * cols
    ensures IsMatrix(M, rows, cols)
  {
    if tr == 'N' then Grid(s, rows, cols) else Transpose(Grid(s, cols, rows), cols, rows)
  }

  method LoadOperand(tr: char, A: array<real>, rows: nat, cols: nat, i: nat, j: nat) returns (x: real)
    requires A.Length == rows * cols && i < rows && j < cols
    ensures x == Operand(tr, A[..], rows, cols)[i][j]
  {
    if tr == 'N' {
      x := Load(A, rows, cols, i, j);
    } else {
      x := Load(A, cols, rows, j, i);
    }
  }

  /** C = alpha * op(A) * op(B) + beta * C, with C n x k and inner dimension m. */
  method Matmul(tr: string, n: nat, k: nat, m: nat, alpha: real, A: array<real>, B: array<real>, beta: real,
                C: array<real>)
    requires |tr| >= 2 && A.Length == n * m && B.Length == m * k && C.Length == n * k
    requires C != A && C != B
    modifies C
    ensures Grid(C[..], n, k) == Combine(alpha, Mul(Operand(tr[0], A[..], n, m), Operand(tr[1], B[..], m, k), m, k),
                                         beta, Grid(old(C[..]), n, k), n, k)
  {
    hide Filled, Operand, Grid, Mul;
    ghost var C0 := Grid(C[..], n, k);
    ghost var P := Mul(Operand(tr[0], A[..], n, m), Operand(tr[1], B[..], m, k), m, k);
    ghost var T := Combine(alpha, P, beta, C0, n, k);
    FilledStart(C0, T, n, k);
    for i := 0 to n
      invariant A[..] == old(A[..]) && B[..] == old(B[..])
      invariant Filled(Grid(C[..], n, k), C0, T, n, k, i, 0)
    {
      for j := 0 to k
        invariant A[..] == old(A[..]) && B[..] == old(B[..])
        invariant Filled(Grid(C[..], n, k), C0, T, n, k, i, j)
      {
        var d := DotProduct(tr, n, k, m, A, B, i, j);
        var c := Load(C, n, k, i, j);
        c := if beta == 0.0 then alpha * d else alpha * d + beta * c;
        FilledStep(Grid(C[..], n, k), C0, P, alpha, beta, n, k, i, j, d, c);
        Store(C, n, k, i, j, c);
      }
      FilledRow(Grid(C[..], n, k), C0, T, n, k, i);
    }
    FilledAll(Grid(C[..], n, k), C0, T, n, k);
  }

  /** Rows before i and the first j entries of row i hold the product, the rest the old contents. */
  ghost predicate Filled(G: Matrix, C0: Matrix, T: Matrix, n: nat, k: nat, i: nat, j: nat)
    requires IsMatrix(G, n, k) && IsMatrix(C0, n, k) && IsMatrix(T, n, k)
  {
    forall p, q :: 0 <= p < n && 0 <= q < k ==>
      G[p][q] == if p < i || (p == i && q < j) then T[p][q] else C0[p][q]
  }

  lemma FilledStart(C0: Matrix, T: Matrix, n: nat, k: nat)
    requires IsMatrix(C0, n, k) && IsMatrix(T, n, k)
    ensures Filled(C0, C0, T, n, k, 0, 0)
  {
  }

  lemma FilledStep(G: Matrix, C0: Matrix, P: Matrix, alpha: real, beta: real, n: nat, k: nat, i: nat, j: nat,
                   d: real, c: real)
    requires IsMatrix(G, n, k) && IsMatrix(C0, n, k) && IsMatrix(P, n, k) && i < n && j < k
    requires Filled(G, C0, Combine(alpha, P, beta, C0, n, k), n, k, i, j)
    requires d == P[i][j] && c == if beta == 0.0 then alpha * d else alpha * d + beta * G[i][j]
    ensures Filled(Put(G, n, k, i, j, c), C0, Combine(alpha, P, beta, C0, n, k), n, k, i, j + 1)
  {
    assert G[i][j] == C0[i][j];
    assert Combine(alpha, P, beta, C0, n, k)[i][j] == alpha * d + beta * C0[i][j];
  }

  lemma FilledRow(G: Matrix, C0: Matrix, T: Matrix, n: nat, k: nat, i: nat)
    requires IsMatrix(G, n, k) && IsMatrix(C0, n, k) && IsMatrix(T, n, k) && Filled(G, C0, T, n, k, i, k)
    ensures Filled(G, C0, T, n, k, i + 1, 0)
  {
  }

  lemma FilledAll(G: Matrix, C0: Matrix, T: Matrix, n: nat, k: nat)
    requires IsMatrix(G, n, k) && IsMatrix(C0, n, k) && IsMatrix(T, n, k) && Filled(G, C0, T, n, k, n, 0)
    ensures G == T
  {
    MatrixEqual(G, T, n, k);
  }

  method DotProduct(tr: string, n: nat, k: nat, m: nat, A: array<real>, B: array<real>, i: nat, j: nat)
    returns (d: real)
    requires |tr| >= 2 && A.Length == n * m && B.Length == m * k && i < n && j < k
    ensures d == Mul(Operand(tr[0], A[..], n, m), Operand(tr[1], B[..], m, k), m, k)[i][j]
  {
    hide Operand;
    ghost var a, b := Operand(tr[0], A[..], n, m), Operand(tr[1], B[..], m, k);
    ghost var u, v := a[i], Col(b, j);
    d := 0.0;
    for x := 0 to m
      invariant d == Dot(u, v, x)
    {
      var p := LoadOperand(tr[0], A, n, m, i, x);
      var q := LoadOperand(tr[1], B, m, k, x, j);
      assert Dot(u, v, x + 1) == Dot(u, v, x) + p * q;
      d := d + p * q;
    }
  }

  /** A single column stored as an array. */
  lemma GridColumn(s: seq<real>, n: nat)
    requires |s| == n * 1
    ensures Col(Grid(s, n, 1), 0) == s
  {
    forall i | 0 <= i < n
      ensures Grid(s, n, 1)[i][0] == s[i]
    {
      assert Ix(i, 0, n, 1) == i;
    }
  }

  lemma PlainProduct(P: Matrix, C: Matrix, n: nat, k: nat)
    requires IsMatrix(P, n, k) && IsMatrix(C, n, k)
    ensures Combine(1.0, P, 0.0, C, n, k) == P
  {
    MatrixEqual(Combine(1.0, P, 0.0, C, n, k), P, n, k);
  }

  /** A product with one column is a matrix-vector product. */
  lemma ColumnProduct(M: Matrix, v: seq<real>, s: seq<real>, n: nat, m: nat)
    requires IsMatrix(M, n, m) && |v| == m * 1 && |s| == n * 1
    requires Grid(s, n, 1) == Mul(M, Grid(v, m, 1), m, 1)
    ensures s == MatVec(M, v)
  {
    GridColumn(s, n);
    GridColumn(v, m);
    MulCol(M, Grid(v, m, 1), m, 1, 0);
  }
}
