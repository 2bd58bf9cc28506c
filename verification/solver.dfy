/** The solve action: validate the grid, run the determinant step, stop on a
    singular matrix, otherwise run the cofactor, adjoint and inverse
    engines in that order. */
module Solver {
  import opened Matrices
  import opened Determinant
  import opened Engines

  /** A determinant smaller than this in magnitude counts as zero. */
  const SingularTolerance: real := 1e-12

  function Abs(x: real): (r: real)
    ensures r >= 0.0 && (r == x || r == -x)
  {
    if x < 0.0 then -x else x
  }

  /** How a solve ends: one of the three errors, or all four results. */
  datatype Outcome =
    | EmptyInput                  // "No matrix input."
    | NotSquare                   // "Matrix is not square → no inverse."
    | Singular(det: real)         // "Matrix is singular → no inverse."
    | Invertible(det: real, cof: Matrix, adj: Matrix, inv: Matrix)

  /** The outcome the solve action reaches for a grid it has read. The
      determinant tested is the value of the determinant step, the
      one-level expansion along row 0. */
  function SolveOutcome(A: Matrix): (o: Outcome)
    requires Rectangular(A)
    ensures o.EmptyInput? <==> |A| == 0
    ensures o.NotSquare? <==> |A| > 0 && !IsSquare(A)
    ensures o.Singular? || o.Invertible? <==> IsSquare(A)
    ensures o.Singular? ==> Abs(o.det) < SingularTolerance
    ensures o.Invertible? ==> Abs(o.det) >= SingularTolerance
  {
    if |A| == 0 then EmptyInput
    else if !IsSquare(A) then NotSquare
    else
      var det := ExpansionSum(A, |A|);
      if Abs(det) < SingularTolerance then Singular(det)
      else
        var cof := Cofactors(A);
        var adj := Transpose(cof);
        Invertible(det, cof, adj, DivideBy(adj, det))
  }

  /** Only a determinant-step line can appear before the cofactor engine
      runs. */
  predicate NoResultSteps(steps: seq<Step>) {
    forall k :: 0 <= k < |steps| ==> !steps[k].CellStep? && !steps[k].ScaleStep?
  }

  lemma {:induction false} TermStepsHaveNoCells(A: Matrix, k: nat)
    requires SquareShape(A) && k <= |A|
    ensures NoResultSteps(TermSteps(A, k))
  {
    if k > 0 {
      TermStepsHaveNoCells(A, k - 1);
    }
  }

  /** The solve action. */
  method Solve(A: Matrix) returns (outcome: Outcome, steps: seq<Step>)
    requires Rectangular(A)
    ensures outcome == SolveOutcome(A)
    ensures outcome.EmptyInput? || outcome.NotSquare? ==> steps == []
    ensures outcome.Singular? ==>
              SquareShape(A) && steps == [MatrixStep(OriginalStage, A)] + DeterminantTrace(A)
              && NoResultSteps(steps)
    ensures outcome.Invertible? ==>
              SquareShape(A)
              && steps == [MatrixStep(OriginalStage, A)] + DeterminantTrace(A)
                          + StageTrace(CofactorStage, outcome.cof)
                          + StageTrace(AdjointStage, outcome.adj)
                          + ([ScaleStep(outcome.det)] + StageTrace(InverseStage, outcome.inv))
  {
    steps := [];
    if |A| == 0 {
      return EmptyInput, steps;
    }
    if !IsSquare(A) {
      return NotSquare, steps;
    }
    IsSquareOnRectangular(A);
    steps := [MatrixStep(OriginalStage, A)];
    var det, detSteps := DeterminantSteps(A);
    steps := steps + detSteps;
    if |A| == 1 {
      OneByOneExpansionIsZero(A);
    } else {
      DetIsExpansion(A);
    }
    if Abs(det) < SingularTolerance {
      TermStepsHaveNoCells(A, |A|);
      return Singular(det), steps;
    }
    var cof, cofSteps := CofactorMatrixSteps(A);
    var adj, adjSteps := AdjointSteps(cof);
    var inv, invSteps := InverseSteps(adj, det);
    steps := steps + cofSteps + adjSteps + invSteps;
    outcome := Invertible(det, cof, adj, inv);
  }

  /** Every 1 x 1 matrix is reported singular, whatever its entry: the
      determinant step multiplies the entry by the determinant of the
      empty minor, which is 0. */
  lemma OneByOneIsSingular(x: real)
    ensures SolveOutcome([[x]]) == Singular(0.0)
  {
    OneByOneExpansionIsZero([[x]]);
  }

  /** From 2 x 2 on, the decision is made on the true determinant: singular
      exactly when |Det(A)| < 1e-12, invertible exactly otherwise. */
  lemma DecisionFromTwo(A: Matrix)
    requires SquareShape(A) && |A| >= 2
    ensures SolveOutcome(A).Singular? <==> Abs(Det(A)) < SingularTolerance
    ensures SolveOutcome(A).Invertible? <==> Abs(Det(A)) >= SingularTolerance
    ensures SolveOutcome(A).det == Det(A)
  {
    DetIsExpansion(A);
  }

  /** An invertible outcome only arises from a square matrix of size 2 or
      more, and the determinant it carries is Det(A), which is non-zero. */
  lemma InvertibleOutcome(A: Matrix)
    requires Rectangular(A) && SolveOutcome(A).Invertible?
    ensures |A| >= 2 && SquareShape(A)
    ensures Abs(Det(A)) >= SingularTolerance
    ensures SolveOutcome(A).det == Det(A)
    ensures SolveOutcome(A).cof == Cofactors(A)
    ensures SolveOutcome(A).adj == Transpose(Cofactors(A))
    ensures SolveOutcome(A).inv == DivideBy(Transpose(Cofactors(A)), Det(A))
  {
    IsSquareOnRectangular(A);
    if |A| == 1 {
      OneByOneExpansionIsZero(A);
      assert false;
    }
    DetIsExpansion(A);
  }

  /** The results of an invertible outcome, entry by entry: the cofactor
      matrix holds the signed minors, the adjoint is its transpose, and the
      inverse times the determinant gives back the adjoint. */
  lemma InvertibleEntries(A: Matrix, i: nat, j: nat)
    requires Rectangular(A) && SolveOutcome(A).Invertible?
    requires i < |A| && j < |A|
    ensures SquareShape(A)
    ensures SolveOutcome(A).cof[i][j] == Cofactor(A, i, j)
    ensures SolveOutcome(A).adj[j][i] == SolveOutcome(A).cof[i][j]
    ensures SolveOutcome(A).inv[j][i] * SolveOutcome(A).det == Cofactor(A, i, j)
  {
    InvertibleOutcome(A);
  }

  /** (p + a q) d == p d + a (q d): one step of a scaled product sum. */
  lemma ScaledStep(p: real, a: real, q: real, d: real)
    ensures (p + a * q) * d == p * d + a * (q * d)
  {
  }

  /** Column 0 of B, scaled by d, is column 0 of C. */
  predicate ScalesColumnZero(B: Matrix, C: Matrix, d: real)
    requires SquareShape(B) && |B| == |C| && 0 < |B| && SquareShape(C)
  {
    forall t :: 0 <= t < |B| ==> B[t][0] * d == C[t][0]
  }

  lemma DivideByScales(C: Matrix, d: real)
    requires SquareShape(C) && 0 < |C| && d != 0.0
    ensures ScalesColumnZero(DivideBy(C, d), C, d)
  {
  }

  /** Row 0 of A times column 0 of B, scaled by d, when d B is C. */
  lemma {:induction false} ScaledProductEntry(A: Matrix, B: Matrix, C: Matrix, d: real, k: nat)
    requires SquareShape(A) && SquareShape(B) && SquareShape(C)
    requires |A| == |B| == |C| && 0 < |A| && k <= |A|
    requires ScalesColumnZero(B, C, d)
    ensures ProductEntry(A, B, 0, 0, k) * d == ProductEntry(A, C, 0, 0, k)
  {
    if k > 0 {
      ScaledProductEntry(A, B, C, d, k - 1);
      ScaledStep(ProductEntry(A, B, 0, 0, k - 1), A[0][k - 1], B[k - 1][0], d);
    }
  }

  /** Row 0 of A times a column 0 holding the first-row cofactors, such
      as that of the adjoint, is the first-row cofactor sum. */
  lemma {:induction false} AdjointProductEntry(A: Matrix, adj: Matrix, k: nat)
    requires SquareShape(A) && SquareShape(adj) && |adj| == |A| && 0 < |A| && k <= |A|
    requires forall t :: 0 <= t < |A| ==> adj[t][0] == Cofactor(A, 0, t)
    ensures ProductEntry(A, adj, 0, 0, k) == RowCofactorSum(A, k)
  {
    if k > 0 {
      AdjointProductEntry(A, adj, k - 1);
      assert adj[k - 1][0] == Cofactor(A, 0, k - 1);
    }
  }

  /** p d == q with q == d non-zero forces p == 1. */
  lemma CancelScale(p: real, q: real, d: real)
    requires d != 0.0 && p * d == q && q == d
    ensures p == 1.0
  {
  }

  /** If row 0 of A times column 0 of C is d, and B times d is C on
      column 0, then row 0 of A times column 0 of B is 1. */
  lemma {:induction false} ScaledTopLeft(A: Matrix, B: Matrix, C: Matrix, d: real)
    requires SquareShape(A) && SquareShape(B) && SquareShape(C)
    requires |A| == |B| == |C| && 0 < |A|
    requires ScalesColumnZero(B, C, d)
    requires d != 0.0 && ProductEntry(A, C, 0, 0, |A|) == d
    ensures ProductEntry(A, B, 0, 0, |A|) == 1.0
  {
    ScaledProductEntry(A, B, C, d, |A|);
    CancelScale(ProductEntry(A, B, 0, 0, |A|), ProductEntry(A, C, 0, 0, |A|), d);
  }

  /** For an invertible outcome, entry (0, 0) of A times the computed
      inverse is exactly 1. */
  lemma InverseTopLeft(A: Matrix)
    requires Rectangular(A) && SolveOutcome(A).Invertible?
    ensures SquareShape(A) && |SolveOutcome(A).inv| == |A|
    ensures ProductEntry(A, SolveOutcome(A).inv, 0, 0, |A|) == 1.0
  {
    InvertibleOutcome(A);
    FirstRowCofactorExpansion(A);
    var adj := Transpose(Cofactors(A));
    AdjointProductEntry(A, adj, |A|);
    DivideByScales(adj, Det(A));
    ScaledTopLeft(A, DivideBy(adj, Det(A)), adj, Det(A));
  }
}
