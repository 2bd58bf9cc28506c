/** The solve action's outcome on concrete grids. */
module Scenarios {
  import opened Matrices
  import opened Determinant
  import opened Solver

  lemma TwoByTwoDeterminant()
    ensures Det([[1.0, 2.0], [3.0, 4.0]]) == -2.0
  {
  }

  /** The numeric engine gives a 1 x 1 matrix its entry as determinant. */
  lemma OneByOneDeterminant()
    ensures Det([[5.0]]) == 5.0
  {
  }

  /** The solve action reports the same matrix singular: its determinant
      step multiplies 5 by the 0 the numeric engine gives the empty minor. */
  lemma FiveReportedSingular()
    ensures Det([[5.0]]) == 5.0 && SolveOutcome([[5.0]]) == Singular(0.0)
  {
    OneByOneIsSingular(5.0);
  }

  lemma EmptyGrid()
    ensures SolveOutcome([]) == EmptyInput
  {
  }

  lemma TwoByThreeGrid()
    ensures SolveOutcome([[1.0, 2.0, 3.0], [4.0, 5.0, 6.0]]) == NotSquare
  {
  }

  /** The shape check looks only at the first row: a ragged grid with two
      rows and a first row of length 2 passes it. */
  lemma RaggedGridPassesShapeCheck()
    ensures IsSquare([[1.0, 2.0], [3.0, 4.0, 5.0]])
    ensures !Rectangular([[1.0, 2.0], [3.0, 4.0, 5.0]])
  {
    var A := [[1.0, 2.0], [3.0, 4.0, 5.0]];
    assert |A[1]| != |A[0]|;
  }

  /** 1 2 3 / 4 5 6 / 7 8 9 is singular: determinant 0. */
  lemma ThreeByThreeSingular()
    ensures SolveOutcome([[1.0, 2.0, 3.0], [4.0, 5.0, 6.0], [7.0, 8.0, 9.0]]) == Singular(0.0)
  {
    var A := [[1.0, 2.0, 3.0], [4.0, 5.0, 6.0], [7.0, 8.0, 9.0]];
    var m0, m1, m2 := Minor(A, 0, 0), Minor(A, 0, 1), Minor(A, 0, 2);
    assert m0[0] == [5.0, 6.0] && m0[1] == [8.0, 9.0];
    assert m1[0] == [4.0, 6.0] && m1[1] == [7.0, 9.0];
    assert m2[0] == [4.0, 5.0] && m2[1] == [7.0, 8.0];
    assert Det(m0) == -3.0 && Det(m1) == -6.0 && Det(m2) == -3.0;
    assert ExpansionSum(A, 3) == 0.0;
  }

  /** For 2 0 / 0 2 every cofactor equals the entry it replaces. */
  lemma DiagonalTwoCofactor(i: nat, j: nat)
    requires i < 2 && j < 2
    ensures Cofactor([[2.0, 0.0], [0.0, 2.0]], i, j) == [[2.0, 0.0], [0.0, 2.0]][i][j]
  {
    var A := [[2.0, 0.0], [0.0, 2.0]];
    var m := Minor(A, i, j);
    assert m[0] == [A[1 - i][1 - j]];
    assert m == [[A[1 - i][1 - j]]];
  }

  lemma DiagonalTwoCofactors()
    ensures Cofactors([[2.0, 0.0], [0.0, 2.0]]) == [[2.0, 0.0], [0.0, 2.0]]
  {
    var A := [[2.0, 0.0], [0.0, 2.0]];
    var cof := Cofactors(A);
    DiagonalTwoCofactor(0, 0);
    DiagonalTwoCofactor(0, 1);
    DiagonalTwoCofactor(1, 0);
    DiagonalTwoCofactor(1, 1);
    assert cof[0] == A[0] && cof[1] == A[1];
  }

  lemma DiagonalTwoDeterminant()
    ensures ExpansionSum([[2.0, 0.0], [0.0, 2.0]], 2) == 4.0
  {
    var A := [[2.0, 0.0], [0.0, 2.0]];
    DetIsExpansion(A);
  }

  lemma DiagonalTwoTranspose()
    ensures Transpose([[2.0, 0.0], [0.0, 2.0]]) == [[2.0, 0.0], [0.0, 2.0]]
  {
    var A := [[2.0, 0.0], [0.0, 2.0]];
    var t := Transpose(A);
    assert t[0] == A[0] && t[1] == A[1];
  }

  lemma DiagonalTwoQuarter()
    ensures DivideBy([[2.0, 0.0], [0.0, 2.0]], 4.0) == [[0.5, 0.0], [0.0, 0.5]]
  {
    var inv := DivideBy([[2.0, 0.0], [0.0, 2.0]], 4.0);
    assert inv[0] == [0.5, 0.0] && inv[1] == [0.0, 0.5];
  }

  /** 2 0 / 0 2 has determinant 4 and inverse 0.5 0 / 0 0.5. */
  lemma TwoByTwoInvertible()
    ensures SolveOutcome([[2.0, 0.0], [0.0, 2.0]])
            == Invertible(4.0, [[2.0, 0.0], [0.0, 2.0]], [[2.0, 0.0], [0.0, 2.0]], [[0.5, 0.0], [0.0, 0.5]])
  {
    DiagonalTwoDeterminant();
    DiagonalTwoCofactors();
    DiagonalTwoTranspose();
    DiagonalTwoQuarter();
  }
}
