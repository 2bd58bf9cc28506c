/** The solve action with the empty minor given determinant 1, as in linear
    algebra. The numeric engine gives it 0, which makes the determinant step
    and the cofactor of every 1 x 1 matrix 0; with determinant 1 the flow is
    unchanged from 2 x 2 on and inverts every non-singular 1 x 1 matrix. */
module Correction {
  import opened Matrices
  import opened Determinant
  import opened Solver

  /** The cofactor matrix with minor determinants taken by Laplace. */
  function LaplaceCofactors(A: Matrix): (cof: Matrix)
    requires SquareShape(A)
    ensures |cof| == |A| && SquareShape(cof)
    ensures forall i, j :: 0 <= i < |A| && 0 <= j < |A| ==> cof[i][j] == LaplaceCofactor(A, i, j)
  {
    seq(|A|, i requires 0 <= i < |A| =>
      seq(|A|, j requires 0 <= j < |A| => LaplaceCofactor(A, i, j)))
  }

  function LaplaceCofactor(A: Matrix, i: nat, j: nat): real
    requires SquareShape(A) && i < |A| && j < |A|
  {
    Sign(i + j) * Laplace(Minor(A, i, j))
  }

  /** The outcome of the solve action with the corrected determinant. */
  function CorrectedOutcome(A: Matrix): Outcome
    requires Rectangular(A)
  {
    if |A| == 0 then EmptyInput
    else if !IsSquare(A) then NotSquare
    else
      var det := Laplace(A);
      if Abs(det) < SingularTolerance then Singular(det)
      else
        var cof := LaplaceCofactors(A);
        var adj := Transpose(cof);
        Invertible(det, cof, adj, DivideBy(adj, det))
  }

  /** From 2 x 2 on every minor is non-empty, so both determinants agree. */
  lemma LaplaceCofactorsFromTwo(A: Matrix)
    requires SquareShape(A) && |A| >= 2
    ensures LaplaceCofactors(A) == Cofactors(A)
  {
    var L, C := LaplaceCofactors(A), Cofactors(A);
    forall i | 0 <= i < |A|
      ensures L[i] == C[i]
    {
      forall j | 0 <= j < |A|
        ensures L[i][j] == C[i][j]
      {
        DetIsLaplace(Minor(A, i, j));
      }
    }
  }

  /** The correction changes nothing except on 1 x 1 matrices. */
  lemma CorrectionAgreesOffOneByOne(A: Matrix)
    requires Rectangular(A) && |A| != 1
    ensures CorrectedOutcome(A) == SolveOutcome(A)
  {
    IsSquareOnRectangular(A);
    if IsSquare(A) {
      DetIsLaplace(A);
      DetIsExpansion(A);
      LaplaceCofactorsFromTwo(A);
    }
  }

  lemma EmptyMinor(x: real)
    ensures Minor([[x]], 0, 0) == []
  {
  }

  /** A 1 x 1 matrix is singular exactly when its entry is below the
      tolerance; otherwise its inverse is its reciprocal. */
  lemma CorrectedOneByOne(x: real)
    ensures Abs(x) < SingularTolerance ==> CorrectedOutcome([[x]]) == Singular(x)
    ensures Abs(x) >= SingularTolerance ==>
              CorrectedOutcome([[x]]) == Invertible(x, [[1.0]], [[1.0]], [[1.0 / x]])
  {
    LaplaceOfSingleton(x);
    EmptyMinor(x);
    var cof := LaplaceCofactors([[x]]);
    assert cof[0] == [1.0];
    assert cof == [[1.0]];
    var adj := Transpose(cof);
    assert adj[0] == [1.0];
    assert adj == [[1.0]];
    if Abs(x) >= SingularTolerance {
      var inv := DivideBy(adj, x);
      assert inv[0] == [1.0 / x];
      assert inv == [[1.0 / x]];
    }
  }

  /** With the correction, entry (0, 0) of A times the inverse is 1 for
      every invertible outcome, 1 x 1 included. */
  lemma CorrectedInverseTopLeft(A: Matrix)
    requires Rectangular(A) && CorrectedOutcome(A).Invertible?
    ensures SquareShape(A) && |CorrectedOutcome(A).inv| == |A|
    ensures ProductEntry(A, CorrectedOutcome(A).inv, 0, 0, |A|) == 1.0
  {
    IsSquareOnRectangular(A);
    if |A| == 1 {
      var x := A[0][0];
      assert A == [[x]] by { assert A[0] == [x]; }
      CorrectedOneByOne(x);
      ReciprocalProduct(x);
    } else {
      CorrectionAgreesOffOneByOne(A);
      InverseTopLeft(A);
    }
  }

  lemma ReciprocalProduct(x: real)
    requires x != 0.0
    ensures ProductEntry([[x]], [[1.0 / x]], 0, 0, 1) == 1.0
  {
  }
}
