/** The determinant by cofactor expansion along the first row, exactly as the
    numeric engine computes it (closed forms up to 2 x 2), an independent
    reference definition (the bare Laplace expansion), and what is proved
    about them. */
module Determinant {
  import opened Matrices

  /** The determinant the numeric engine returns: 0 for the empty matrix, the
      single entry for 1 x 1, ad - bc for 2 x 2, and otherwise the expansion
      along row 0. */
  function Det(A: Matrix): real
    requires SquareShape(A)
    decreases |A|, |A| + 1
  {
    var n := |A|;
    if n == 0 then 0.0
    else if n == 1 then A[0][0]
    else if n == 2 then Cross(A[0][0], A[1][1], A[0][1], A[1][0])
    else ExpansionSum(A, n)
  }

  /** a * d - b * c, the closed form of a 2 x 2 determinant. */
  function Cross(a: real, d: real, b: real, c: real): real {
    a * d - b * c
  }

  /** The term of column col in a first-row expansion: the entry times its
      signed minor determinant. */
  function Term(col: nat, entry: real, minorDet: real): real {
    Sign(col) * entry * minorDet
  }

  /** The first k terms of the expansion along row 0:
      the sum over col < k of Sign(col) * A[0][col] * Det(Minor(A, 0, col)). */
  function ExpansionSum(A: Matrix, k: nat): real
    requires SquareShape(A) && 0 < |A| && k <= |A|
    decreases |A|, k
  {
    if k == 0 then 0.0
    else ExpansionSum(A, k - 1) + Term(k - 1, A[0][k - 1], Det(Minor(A, 0, k - 1)))
  }

  /** Reference definition: the Laplace expansion along row 0 with no closed
      forms; the empty matrix has determinant 1, as in linear algebra. */
  function Laplace(A: Matrix): real
    requires SquareShape(A)
    decreases |A|, |A| + 1
  {
    if |A| == 0 then 1.0 else LaplaceSum(A, |A|)
  }

  function LaplaceSum(A: Matrix, k: nat): real
    requires SquareShape(A) && 0 < |A| && k <= |A|
    decreases |A|, k
  {
    if k == 0 then 0.0
    else LaplaceSum(A, k - 1) + Term(k - 1, A[0][k - 1], Laplace(Minor(A, 0, k - 1)))
  }

  /** The 1 x 1 minors of a 2 x 2 matrix are its opposite corners. */
  lemma MinorsOfTwoByTwo(A: Matrix)
    requires SquareShape(A) && |A| == 2
    ensures Minor(A, 0, 0) == [[A[1][1]]]
    ensures Minor(A, 0, 1) == [[A[1][0]]]
  {
    var m0, m1 := Minor(A, 0, 0), Minor(A, 0, 1);
    assert m0[0][0] == A[1][1] && m1[0][0] == A[1][0];
    assert m0[0] == [A[1][1]] && m1[0] == [A[1][0]];
  }

  /** The closed forms of the numeric engine agree with the general expansion
      for every non-empty matrix; only the empty matrix differs (0 against 1). */
  lemma {:induction false} DetIsLaplace(A: Matrix)
    requires SquareShape(A) && |A| >= 1
    ensures Det(A) == Laplace(A)
    decreases |A|, |A| + 1
  {
    var n := |A|;
    if n == 1 {
      assert Minor(A, 0, 0) == [];
      assert LaplaceSum(A, 1) == A[0][0];
    } else if n == 2 {
      MinorsOfTwoByTwo(A);
      LaplaceOfSingleton(A[1][1]);
      LaplaceOfSingleton(A[1][0]);
      assert LaplaceSum(A, 1) == A[0][0] * A[1][1];
    } else {
      ExpansionIsLaplaceSum(A, n);
    }
  }

  lemma LaplaceOfSingleton(x: real)
    ensures Laplace([[x]]) == x
  {
    assert Minor([[x]], 0, 0) == [];
    assert LaplaceSum([[x]], 1) == Term(0, x, 1.0);
  }

  lemma {:induction false} ExpansionIsLaplaceSum(A: Matrix, k: nat)
    requires SquareShape(A) && |A| >= 2 && k <= |A|
    ensures ExpansionSum(A, k) == LaplaceSum(A, k)
    decreases |A|, k
  {
    if k > 0 {
      ExpansionIsLaplaceSum(A, k - 1);
      var m := Minor(A, 0, k - 1);
      DetIsLaplace(m);
      assert ExpansionSum(A, k) == ExpansionSum(A, k - 1) + Term(k - 1, A[0][k - 1], Det(m));
    }
  }

  lemma EmptyDeterminants()
    ensures Det([]) == 0.0 && Laplace([]) == 1.0
  {
  }

  /** From n = 2 on, the numeric value equals the full first-row expansion
      (for n = 2 the closed form is that expansion written out). */
  lemma {:induction false} DetIsExpansion(A: Matrix)
    requires SquareShape(A) && |A| >= 2
    ensures Det(A) == ExpansionSum(A, |A|)
  {
    if |A| == 2 {
      MinorsOfTwoByTwo(A);
      assert ExpansionSum(A, 1) == Term(0, A[0][0], A[1][1]);
      assert ExpansionSum(A, 2) == Term(0, A[0][0], A[1][1]) + Term(1, A[0][1], A[1][0]);
    }
  }

  /** For a 1 x 1 matrix the expansion multiplies the entry by the determinant
      of the empty minor, which the numeric engine takes to be 0. */
  lemma OneByOneExpansionIsZero(A: Matrix)
    requires SquareShape(A) && |A| == 1
    ensures ExpansionSum(A, 1) == 0.0
  {
    assert Minor(A, 0, 0) == [];
  }

  /** A matrix with a row of zeros has determinant 0. */
  lemma {:induction false} DetOfZeroRow(A: Matrix, r: nat)
    requires SquareShape(A) && r < |A|
    requires forall j :: 0 <= j < |A| ==> A[r][j] == 0.0
    ensures Det(A) == 0.0
    decreases |A|, |A| + 1
  {
    if |A| > 2 {
      ExpansionOfZeroRow(A, r, |A|);
    }
  }

  lemma {:induction false} ExpansionOfZeroRow(A: Matrix, r: nat, k: nat)
    requires SquareShape(A) && r < |A| && |A| > 2 && k <= |A|
    requires forall j :: 0 <= j < |A| ==> A[r][j] == 0.0
    ensures ExpansionSum(A, k) == 0.0
    decreases |A|, k
  {
    if k > 0 {
      ExpansionOfZeroRow(A, r, k - 1);
      if r > 0 {
        var m := Minor(A, 0, k - 1);
        var below := r - 1;
        assert forall j :: 0 <= j < |m| ==> m[below][j] == 0.0;
        DetOfZeroRow(m, below);
      }
    }
  }

  /** The cofactor matrix: entry (i, j) is the signed determinant of the
      minor that deletes row i and column j. */
  function Cofactors(A: Matrix): (cof: Matrix)
    requires SquareShape(A)
    ensures |cof| == |A| && SquareShape(cof)
    ensures forall i, j :: 0 <= i < |A| && 0 <= j < |A| ==> cof[i][j] == Cofactor(A, i, j)
  {
    seq(|A|, i requires 0 <= i < |A| =>
      seq(|A|, j requires 0 <= j < |A| => Cofactor(A, i, j)))
  }

  function Cofactor(A: Matrix, i: nat, j: nat): real
    requires SquareShape(A) && i < |A| && j < |A|
  {
    Sign(i + j) * Det(Minor(A, i, j))
  }

  /** Sum over t < k of A[0][t] * cof[0][t]: the first-row products of the
      matrix with its cofactors. */
  function RowCofactorSum(A: Matrix, k: nat): real
    requires SquareShape(A) && 0 < |A| && k <= |A|
  {
    if k == 0 then 0.0 else RowCofactorSum(A, k - 1) + A[0][k - 1] * Cofactor(A, 0, k - 1)
  }

  /** The first row of the cofactor matrix reproduces the determinant:
      sum over j of A[0][j] * Cof[0][j] == Det(A) for every n >= 2. */
  lemma {:induction false} FirstRowCofactorExpansion(A: Matrix)
    requires SquareShape(A) && |A| >= 2
    ensures RowCofactorSum(A, |A|) == Det(A)
  {
    DetIsExpansion(A);
    RowCofactorSumIsExpansion(A, |A|);
  }

  /** The engines multiply in two orders, entry * (sign * minor) and
      (sign * entry) * minor; over the reals both give the same term. */
  lemma TermRegrouped(col: nat, entry: real, minorDet: real)
    ensures entry * (Sign(col) * minorDet) == Term(col, entry, minorDet)
  {
  }

  lemma {:induction false} RowCofactorSumIsExpansion(A: Matrix, k: nat)
    requires SquareShape(A) && 0 < |A| && k <= |A|
    ensures RowCofactorSum(A, k) == ExpansionSum(A, k)
  {
    if k > 0 {
      RowCofactorSumIsExpansion(A, k - 1);
      var d := Det(Minor(A, 0, k - 1));
      TermRegrouped(k - 1, A[0][k - 1], d);
    }
  }
}
