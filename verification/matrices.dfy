/** Matrices as rows of real entries, and the index operations the solver
    builds on: deleting a row or a column (minors), transposition and
    scaling by the reciprocal of a scalar. */
module Matrices {

  /** A matrix is a sequence of rows; the entries are exact reals. */
  type Matrix = seq<seq<real>>

  /** Every row has the length of the first one (what the input grid yields). */
  predicate Rectangular(A: Matrix) {
    forall i :: 0 <= i < |A| ==> |A[i]| == |A[0]|
  }

  /** n rows of n entries each, with n = |A| (possibly 0). */
  predicate SquareShape(A: Matrix) {
    forall i :: 0 <= i < |A| ==> |A[i]| == |A|
  }

  /** The shape check of the input handler: non-empty, and the row count
      equals the length of the FIRST row (no other row is looked at). */
  function IsSquare(A: Matrix): (b: bool)
    ensures b ==> |A| > 0
  {
    |A| > 0 && |A| == |A[0]|
  }

  lemma IsSquareOnRectangular(A: Matrix)
    requires Rectangular(A)
    ensures IsSquare(A) <==> |A| > 0 && SquareShape(A)
  {
  }

  /** Index i of a sequence from which position k was deleted refers to
      this index of the original sequence. */
  function Skip(i: nat, k: nat): (r: nat)
    ensures r == i || r == i + 1
    ensures r != k
  {
    if i < k then i else i + 1
  }

  /** s with position k deleted. */
  function DropAt<T>(s: seq<T>, k: nat): (r: seq<T>)
    requires k < |s|
    ensures |r| == |s| - 1
    ensures forall i :: 0 <= i < |r| ==> r[i] == s[Skip(i, k)]
  {
    s[..k] + s[k + 1..]
  }

  /** Column c deleted from every row. */
  function DropColumn(A: Matrix, c: nat): (r: Matrix)
    requires forall i :: 0 <= i < |A| ==> c < |A[i]|
    ensures |r| == |A|
    ensures forall i :: 0 <= i < |A| ==> r[i] == DropAt(A[i], c)
  {
    seq(|A|, i requires 0 <= i < |A| => DropAt(A[i], c))
  }

  /** The submatrix with row r and column c deleted. */
  function Minor(A: Matrix, r: nat, c: nat): (m: Matrix)
    requires SquareShape(A) && r < |A| && c < |A|
    ensures |m| == |A| - 1 && SquareShape(m)
    ensures forall i, j :: 0 <= i < |m| && 0 <= j < |m| ==> m[i][j] == A[Skip(i, r)][Skip(j, c)]
  {
    DropColumn(DropAt(A, r), c)
  }

  /** +1 for an even index sum, -1 for an odd one. */
  function Sign(k: nat): (s: real)
    ensures s == 1.0 || s == -1.0
    ensures s == 1.0 <==> k % 2 == 0
  {
    if k % 2 == 0 then 1.0 else -1.0
  }

  /** The transpose of a square matrix. */
  function Transpose(M: Matrix): (t: Matrix)
    requires SquareShape(M)
    ensures |t| == |M| && SquareShape(t)
    ensures forall i, j :: 0 <= i < |M| && 0 <= j < |M| ==> t[j][i] == M[i][j]
  {
    seq(|M|, j requires 0 <= j < |M| => seq(|M|, i requires 0 <= i < |M| => M[i][j]))
  }

  lemma {:induction false} TransposeInvolutive(M: Matrix)
    requires SquareShape(M)
    ensures Transpose(Transpose(M)) == M
  {
    var t := Transpose(Transpose(M));
    forall i | 0 <= i < |M|
      ensures t[i] == M[i]
    {
      assert forall j :: 0 <= j < |M| ==> t[i][j] == Transpose(M)[j][i] == M[i][j];
    }
  }

  /** Every entry divided by d. */
  function DivideBy(M: Matrix, d: real): (q: Matrix)
    requires SquareShape(M) && d != 0.0
    ensures |q| == |M| && SquareShape(q)
    ensures forall i, j :: 0 <= i < |M| && 0 <= j < |M| ==> q[i][j] * d == M[i][j]
  {
    seq(|M|, i requires 0 <= i < |M| => seq(|M|, j requires 0 <= j < |M| => M[i][j] / d))
  }

  /** Entry (i, j) of the quotient is the entry of M divided by d. */
  lemma DivideByEntry(M: Matrix, d: real, i: nat, j: nat)
    requires SquareShape(M) && d != 0.0 && i < |M| && j < |M|
    ensures DivideBy(M, d)[i][j] == M[i][j] / d
  {
  }

  /** The n x n matrix of zeros, the initial value of every result grid. */
  function Zeros(n: nat): (z: Matrix)
    ensures |z| == n && SquareShape(z)
    ensures forall i, j :: 0 <= i < n && 0 <= j < n ==> z[i][j] == 0.0
  {
    seq(n, i => seq(n, j => 0.0))
  }

  /** Sum over t < k of A[i][t] * B[t][j]: entry (i, j) of the product A B
      when k is the common dimension. */
  function ProductEntry(A: Matrix, B: Matrix, i: nat, j: nat, k: nat): real
    requires SquareShape(A) && SquareShape(B) && |A| == |B|
    requires i < |A| && j < |A| && k <= |A|
  {
    if k == 0 then 0.0 else ProductEntry(A, B, i, j, k - 1) + A[i][k - 1] * B[k - 1][j]
  }
}
