/** The four engines of the solver, each as the loop the application runs:
    minors are built row by row, result grids start as zeros and are filled
    cell by cell, and every engine emits its explanation steps in the order
    the page shows them. Each method is proved equal to the specification
    functions of the Matrices and Determinant modules. */
module Engines {
  import opened Matrices
  import opened Determinant

  /** Which grid a cell step or a rendered matrix belongs to. */
  datatype Stage = OriginalStage | CofactorStage | AdjointStage | InverseStage

  /** One explanation step, without its display text. */
  datatype Step =
    | TermStep(col: nat, cofactor: real, term: real)  // cofactor(0,col) and term(col)
    | SumStep(det: real)                               // det(A) = sum of the terms
    | CellStep(stage: Stage, i: nat, j: nat, value: real)
    | ScaleStep(det: real)                             // A^-1 = 1/det * Adj(A)
    | MatrixStep(stage: Stage, m: Matrix)              // a whole grid rendered

  /** Concatenation of the rows, first row first. */
  function Flatten<T>(rows: seq<seq<T>>): seq<T>
  {
    if rows == [] then [] else Flatten(rows[..|rows| - 1]) + rows[|rows| - 1]
  }

  /** The cell steps of a grid, one row of steps per row of the grid. */
  function CellGrid(stage: Stage, M: Matrix): (g: seq<seq<Step>>)
    requires SquareShape(M)
    ensures |g| == |M| && forall i :: 0 <= i < |M| ==> |g[i]| == |M|
  {
    seq(|M|, i requires 0 <= i < |M| =>
      seq(|M|, j requires 0 <= j < |M| => CellStep(stage, i, j, M[i][j])))
  }

  /** One step per cell, in row-major order. */
  function CellTrace(stage: Stage, M: Matrix): seq<Step>
    requires SquareShape(M)
  {
    Flatten(CellGrid(stage, M))
  }

  /** The lines of a result stage: its cells, then the rendered grid. */
  function StageTrace(stage: Stage, M: Matrix): (steps: seq<Step>)
    requires SquareShape(M)
    ensures |steps| == |M| * |M| + 1 && steps[|steps| - 1] == MatrixStep(stage, M)
  {
    FlattenLength(CellGrid(stage, M), |M|);
    CellTrace(stage, M) + [MatrixStep(stage, M)]
  }

  lemma {:induction false} FlattenLength<T>(rows: seq<seq<T>>, n: nat)
    requires forall i :: 0 <= i < |rows| ==> |rows[i]| == n
    ensures |Flatten(rows)| == |rows| * n
  {
    if rows != [] {
      var front := rows[..|rows| - 1];
      FlattenLength(front, n);
      assert |Flatten(rows)| == |Flatten(front)| + n;
      assert |rows| * n == |front| * n + n;
    }
  }

  lemma {:induction false} FlattenAt<T>(rows: seq<seq<T>>, n: nat, i: nat, j: nat)
    requires forall r :: 0 <= r < |rows| ==> |rows[r]| == n
    requires i < |rows| && j < n
    ensures i * n + j < |Flatten(rows)| && Flatten(rows)[i * n + j] == rows[i][j]
  {
    var last := |rows| - 1;
    var front := Flatten(rows[..last]);
    assert Flatten(rows) == front + rows[last];
    FlattenLength(rows[..last], n);
    CellIndexBound(i, j, n, |rows|);
    FlattenLength(rows, n);
    if i < last {
      FlattenAt(rows[..last], n, i, j);
      CellIndexBound(i, j, n, last);
    } else {
      assert i * n + j - |front| == j;
    }
  }

  /** Cell (i, j) of an m x n grid has a row-major position below m * n. */
  lemma {:induction false} CellIndexBound(i: nat, j: nat, n: nat, m: nat)
    requires i < m && j < n
    ensures i * n + j < m * n
  {
    assert m * n == (m - 1) * n + n;
    if i < m - 1 {
      CellIndexBound(i, j, n, m - 1);
    }
  }

  /** The cell trace lists cell (i, j) at position i * n + j: the steps come
      in row-major order (i outer, j inner), each cell exactly once. */
  lemma CellTraceIsRowMajor(stage: Stage, M: Matrix, i: nat, j: nat)
    requires SquareShape(M) && i < |M| && j < |M|
    ensures |CellTrace(stage, M)| == |M| * |M|
    ensures i * |M| + j < |CellTrace(stage, M)|
         && CellTrace(stage, M)[i * |M| + j] == CellStep(stage, i, j, M[i][j])
  {
    var g, n := CellGrid(stage, M), |M|;
    FlattenLength(g, n);
    FlattenAt(g, n, i, j);
    assert g[i][j] == CellStep(stage, i, j, M[i][j]);
  }

  /** The rows below the first i, as a prefix of rows and a flattened part. */
  lemma FlattenSnoc<T>(rows: seq<seq<T>>, i: nat)
    requires i < |rows|
    ensures Flatten(rows[..i + 1]) == Flatten(rows[..i]) + rows[i]
  {
    assert rows[..i + 1][..i] == rows[..i];
  }

  /** One row of a minor: the entries of row in order, except the one in
      column c. */
  method RowWithout(row: seq<real>, c: nat) returns (out: seq<real>)
    requires c < |row|
    ensures out == DropAt(row, c)
  {
    out := [];
    for j := 0 to |row|
      invariant out == if j <= c then row[..j] else row[..c] + row[c + 1..j]
    {
      if j < c {
        assert row[..j + 1] == row[..j] + [row[j]];
      } else if j > c {
        assert row[c + 1..j + 1] == row[c + 1..j] + [row[j]];
      }
      if j != c {
        out := out + [row[j]];
      }
    }
    assert row[c + 1..|row|] == row[c + 1..];
  }

  /** The minor of A that deletes row r and column c, built by the nested
      loops of the engines: every row but r, each without its entry c. */
  method BuildMinor(A: Matrix, r: nat, c: nat) returns (M: Matrix)
    requires SquareShape(A) && r < |A| && c < |A|
    ensures M == Minor(A, r, c)
  {
    var n := |A|;
    M := [];
    for i := 0 to n
      invariant |M| == if i <= r then i else i - 1
      invariant forall k :: 0 <= k < |M| ==> M[k] == DropAt(A[Skip(k, r)], c)
    {
      if i != r {
        var row := RowWithout(A[i], c);
        M := M + [row];
      }
    }
    assert forall k :: 0 <= k < |M| ==> M[k] == DropColumn(DropAt(A, r), c)[k];
  }

  /** The numeric determinant: closed forms up to 2 x 2, otherwise one loop
      over the columns of row 0 that recurses on each minor. */
  method DetNumeric(A: Matrix) returns (det: real)
    requires SquareShape(A)
    ensures det == Det(A)
    decreases |A|
  {
    var n := |A|;
    if n == 0 { return 0.0; }
    if n == 1 { return A[0][0]; }
    if n == 2 { return Cross(A[0][0], A[1][1], A[0][1], A[1][0]); }
    det := 0.0;
    for col := 0 to n
      invariant det == ExpansionSum(A, col)
    {
      var sub := BuildMinor(A, 0, col);
      var minorDet := DetNumeric(sub);
      det := det + Term(col, A[0][col], minorDet);
    }
  }

  /** Sum of the terms recorded in a determinant trace. */
  function TermsSum(steps: seq<Step>): real
  {
    if steps == [] then 0.0
    else TermsSum(steps[..|steps| - 1]) + (if steps[|steps| - 1].TermStep? then steps[|steps| - 1].term else 0.0)
  }

  /** The explanation line of column col in the determinant step: the
      cofactor of entry (0, col) and the term it contributes. */
  function TermStepOf(A: Matrix, col: nat): Step
    requires SquareShape(A) && col < |A|
  {
    TermStep(col, Cofactor(A, 0, col), Term(col, A[0][col], Det(Minor(A, 0, col))))
  }

  /** The lines of the first k columns, in column order. */
  function TermSteps(A: Matrix, k: nat): (steps: seq<Step>)
    requires SquareShape(A) && k <= |A|
    ensures |steps| == k
  {
    if k == 0 then [] else TermSteps(A, k - 1) + [TermStepOf(A, k - 1)]
  }

  /** The explanation of the determinant step: one line per column, then
      the total. */
  function DeterminantTrace(A: Matrix): seq<Step>
    requires SquareShape(A)
  {
    TermSteps(A, |A|) + [SumStep(if |A| == 0 then 0.0 else ExpansionSum(A, |A|))]
  }

  /** The total shown on the last line of the determinant step is the sum of
      the terms shown on the lines before it. */
  lemma {:induction false} TermsAddUp(A: Matrix, k: nat)
    requires SquareShape(A) && 0 < |A| && k <= |A|
    ensures TermsSum(TermSteps(A, k)) == ExpansionSum(A, k)
  {
    if k > 0 {
      TermsAddUp(A, k - 1);
      assert TermSteps(A, k)[..k - 1] == TermSteps(A, k - 1);
    }
  }

  /** Column c's record among the first k lines is that column's record. */
  lemma {:induction false} TermStepsAt(A: Matrix, k: nat, c: nat)
    requires SquareShape(A) && c < k <= |A|
    ensures TermSteps(A, k)[c] == TermStepOf(A, c)
  {
    if c < k - 1 {
      TermStepsAt(A, k - 1, c);
      assert TermSteps(A, k)[c] == TermSteps(A, k - 1)[c];
    }
  }

  /** The record of column c carries cofactor (0, c) and the term A[0][c]
      times that cofactor. */
  lemma TermStepLine(A: Matrix, c: nat)
    requires SquareShape(A) && c < |A|
    ensures TermStepOf(A, c).col == c
    ensures TermStepOf(A, c).cofactor == Cofactor(A, 0, c)
    ensures TermStepOf(A, c).term == A[0][c] * TermStepOf(A, c).cofactor
  {
    TermRegrouped(c, A[0][c], Det(Minor(A, 0, c)));
  }

  /** The determinant card holds one record per column c, in column order,
      carrying cofactor (0, c) and the term A[0][c] times that cofactor; the
      last line is the total, the sum of the recorded terms. */
  lemma DeterminantTraceLines(A: Matrix)
    requires SquareShape(A)
    ensures |DeterminantTrace(A)| == |A| + 1
    ensures forall c :: 0 <= c < |A| ==> DeterminantTrace(A)[c] == TermStepOf(A, c)
    ensures DeterminantTrace(A)[|A|] == SumStep(TermsSum(DeterminantTrace(A)[..|A|]))
  {
    var t, n := DeterminantTrace(A), |A|;
    forall c | 0 <= c < n
      ensures t[c] == TermStepOf(A, c)
    {
      TermStepsAt(A, n, c);
    }
    assert t[..n] == TermSteps(A, n);
    if n > 0 {
      TermsAddUp(A, n);
    }
  }

  /** One column of the determinant step: the minor without row 0 and
      column col, its numeric determinant, the signed cofactor, and the term
      entry * cofactor. */
  method ColumnTerm(A: Matrix, col: nat) returns (cofactorVal: real, termVal: real)
    requires SquareShape(A) && col < |A|
    ensures cofactorVal == Cofactor(A, 0, col)
    ensures termVal == A[0][col] * cofactorVal
    ensures termVal == Term(col, A[0][col], Det(Minor(A, 0, col)))
  {
    var M := BuildMinor(A, 0, col);
    var minorDet := DetNumeric(M);
    var sign := Sign(col);
    cofactorVal := sign * minorDet;
    termVal := A[0][col] * cofactorVal;
    TermRegrouped(col, A[0][col], minorDet);
  }

  /** The determinant step: a one-level expansion along row 0 that delegates
      every minor to DetNumeric. The value is the numeric determinant from
      n = 2 on, but 0 for every 1 x 1 matrix (whose only minor is empty). */
  method DeterminantSteps(A: Matrix) returns (det: real, steps: seq<Step>)
    requires SquareShape(A)
    ensures det == (if |A| == 1 then 0.0 else Det(A))
    ensures steps == DeterminantTrace(A)
  {
    var n := |A|;
    det := 0.0;
    steps := [];
    for col := 0 to n
      invariant steps == TermSteps(A, col)
      invariant n > 0 ==> det == ExpansionSum(A, col)
      invariant n == 0 ==> det == 0.0
    {
      var cofactorVal, termVal := ColumnTerm(A, col);
      steps := steps + [TermStep(col, cofactorVal, termVal)];
      det := det + termVal;
    }
    if n == 1 {
      OneByOneExpansionIsZero(A);
    } else if n >= 2 {
      DetIsExpansion(A);
    }
    steps := steps + [SumStep(det)];
  }

  /** One cell of the cofactor engine: the minor without row i and column
      j, its numeric determinant, and the sign of i + j. */
  method CellCofactor(A: Matrix, i: nat, j: nat) returns (val: real)
    requires SquareShape(A) && i < |A| && j < |A|
    ensures val == Cofactor(A, i, j)
  {
    var M := BuildMinor(A, i, j);
    var minorDet := DetNumeric(M);
    var sign := Sign(i + j);
    val := sign * minorDet;
  }

  /** Row i of the cofactor engine: cell (i, j) receives the cofactor of
      entry (i, j), j in increasing order, with one line per cell; the other
      rows are left alone. */
  method FillCofactorRow(A: Matrix, Cof0: Matrix, i: nat) returns (Cof: Matrix, steps: seq<Step>)
    requires SquareShape(A) && SquareShape(Cof0) && |Cof0| == |A| && i < |A|
    ensures Cof == Cof0[i := Cofactors(A)[i]]
    ensures steps == CellGrid(CofactorStage, Cofactors(A))[i]
  {
    var n := |A|;
    Cof := Cof0;
    steps := [];
    ghost var C := Cofactors(A);
    ghost var G := CellGrid(CofactorStage, C);
    for j := 0 to n
      invariant |Cof| == n && Cof == Cof0[i := Cof[i]] && |Cof[i]| == n
      invariant forall b :: 0 <= b < n ==> Cof[i][b] == if b < j then C[i][b] else Cof0[i][b]
      invariant steps == G[i][..j]
    {
      var val := CellCofactor(A, i, j);
      Cof := Cof[i := Cof[i][j := val]];
      assert G[i][..j + 1] == G[i][..j] + [CellStep(CofactorStage, i, j, val)];
      steps := steps + [CellStep(CofactorStage, i, j, val)];
    }
    assert Cof[i] == C[i];
    assert G[i][..n] == G[i];
  }

  /** The cofactor engine: a zero grid filled cell by cell in row-major
      order, one explanation line per cell, then the rendered matrix. */
  method CofactorMatrixSteps(A: Matrix) returns (Cof: Matrix, steps: seq<Step>)
    requires SquareShape(A)
    ensures Cof == Cofactors(A)
    ensures steps == StageTrace(CofactorStage, Cof)
  {
    var n := |A|;
    Cof := Zeros(n);
    steps := [];
    ghost var C := Cofactors(A);
    ghost var G := CellGrid(CofactorStage, C);
    for i := 0 to n
      invariant |Cof| == n && SquareShape(Cof)
      invariant forall a :: 0 <= a < n ==> Cof[a] == if a < i then C[a] else Zeros(n)[a]
      invariant steps == Flatten(G[..i])
    {
      var rowSteps;
      Cof, rowSteps := FillCofactorRow(A, Cof, i);
      FlattenSnoc(G, i);
      steps := steps + rowSteps;
    }
    assert G[..n] == G;
    steps := steps + [MatrixStep(CofactorStage, Cof)];
  }

  /** The explanation lines of a finished grid, one per cell in row-major
      order. */
  method EmitCells(stage: Stage, M: Matrix) returns (steps: seq<Step>)
    requires SquareShape(M)
    ensures steps == CellTrace(stage, M)
  {
    var n := |M|;
    steps := [];
    ghost var G := CellGrid(stage, M);
    for i := 0 to n
      invariant steps == Flatten(G[..i])
    {
      for j := 0 to n
        invariant steps == Flatten(G[..i]) + G[i][..j]
      {
        assert G[i][..j + 1] == G[i][..j] + [CellStep(stage, i, j, M[i][j])];
        steps := steps + [CellStep(stage, i, j, M[i][j])];
      }
      assert G[i][..n] == G[i];
      FlattenSnoc(G, i);
    }
    assert G[..n] == G;
  }

  /** The adjoint engine: entry (j, i) of a zero grid receives cofactor
      (i, j); the lines and the rendered matrix follow. */
  method AdjointSteps(Cof: Matrix) returns (Adj: Matrix, steps: seq<Step>)
    requires SquareShape(Cof)
    ensures Adj == Transpose(Cof)
    ensures steps == StageTrace(AdjointStage, Adj)
  {
    var n := |Cof|;
    Adj := Zeros(n);
    for i := 0 to n
      invariant |Adj| == n && SquareShape(Adj)
      invariant forall r, c {:trigger Adj[r][c]} :: 0 <= r < n && 0 <= c < n ==>
                  Adj[r][c] == if c < i then Cof[c][r] else 0.0
    {
      for j := 0 to n
        invariant |Adj| == n && SquareShape(Adj)
        invariant forall r, c {:trigger Adj[r][c]} :: 0 <= r < n && 0 <= c < n ==>
                    Adj[r][c] == if c < i || (c == i && r < j) then Cof[c][r] else 0.0
      {
        Adj := Adj[j := Adj[j][i := Cof[i][j]]];
      }
    }
    assert forall b :: 0 <= b < n ==> Adj[b] == Transpose(Cof)[b];
    steps := EmitCells(AdjointStage, Adj);
    steps := steps + [MatrixStep(AdjointStage, Adj)];
  }

  /** Row i of the inverse engine: cell (i, j) receives adjoint entry
      (i, j) divided by the determinant, j in increasing order, with one
      line per cell; the other rows are left alone. */
  method FillInverseRow(Adj: Matrix, det: real, Inv0: Matrix, i: nat) returns (Inv: Matrix, steps: seq<Step>)
    requires SquareShape(Adj) && det != 0.0 && SquareShape(Inv0) && |Inv0| == |Adj| && i < |Adj|
    ensures Inv == Inv0[i := DivideBy(Adj, det)[i]]
    ensures steps == CellGrid(InverseStage, DivideBy(Adj, det))[i]
  {
    var n := |Adj|;
    Inv := Inv0;
    steps := [];
    ghost var Q := DivideBy(Adj, det);
    ghost var G := CellGrid(InverseStage, Q);
    for j := 0 to n
      invariant |Inv| == n && Inv == Inv0[i := Inv[i]] && |Inv[i]| == n
      invariant forall b :: 0 <= b < n ==> Inv[i][b] == if b < j then Q[i][b] else Inv0[i][b]
      invariant steps == G[i][..j]
    {
      var val := Adj[i][j] / det;
      DivideByEntry(Adj, det, i, j);
      Inv := Inv[i := Inv[i][j := val]];
      assert G[i][..j + 1] == G[i][..j] + [CellStep(InverseStage, i, j, val)];
      steps := steps + [CellStep(InverseStage, i, j, val)];
    }
    assert Inv[i] == Q[i];
    assert G[i][..n] == G[i];
  }

  /** The inverse engine: the scaling line, then each adjoint entry divided
      by the determinant in row-major order, then the rendered matrix. */
  method InverseSteps(Adj: Matrix, det: real) returns (Inv: Matrix, steps: seq<Step>)
    requires SquareShape(Adj) && det != 0.0
    ensures Inv == DivideBy(Adj, det)
    ensures steps == [ScaleStep(det)] + StageTrace(InverseStage, Inv)
  {
    var n := |Adj|;
    Inv := Zeros(n);
    steps := [ScaleStep(det)];
    var cells := [];
    ghost var Q := DivideBy(Adj, det);
    ghost var G := CellGrid(InverseStage, Q);
    for i := 0 to n
      invariant |Inv| == n && SquareShape(Inv)
      invariant forall a :: 0 <= a < n ==> Inv[a] == if a < i then Q[a] else Zeros(n)[a]
      invariant cells == Flatten(G[..i])
    {
      var rowSteps;
      Inv, rowSteps := FillInverseRow(Adj, det, Inv, i);
      FlattenSnoc(G, i);
      cells := cells + rowSteps;
    }
    assert G[..n] == G;
    steps := steps + (cells + [MatrixStep(InverseStage, Inv)]);
  }
}
