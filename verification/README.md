# Cofactor-expansion matrix inverter, modelled in Dafny

The application reads a grid of numbers, checks that it is a non-empty square
matrix, and computes its determinant by cofactor expansion along the first
row. If the determinant is below 1e-12 in magnitude, it stops with "Matrix is
singular". Otherwise it computes:

- the cofactor matrix;
- the adjoint, which is the transpose of the cofactor matrix;
- the inverse, which is the adjoint divided by the determinant.

Each stage emits an explanation card:

- the determinant card has two lines per column (the cofactor of entry
  (0, col), then that column's term), then the total; it shows no matrix;
- the cofactor and adjoint cards have one line per cell, then the rendered
  matrix;
- the inverse card opens with the scaling line, then has one line per cell,
  then the rendered matrix.

An empty grid, a failed shape check and a singular matrix each end the action
with a one-line card of their own ("Error" or "Result").

This project models that computational core. There are four engines:

- the numeric determinant;
- the determinant step;
- the cofactor step;
- the adjoint and inverse steps.

The model also covers the shape check and the decision flow of the solve
button.

- `matrices.dfy` (module `Matrices`): matrices as `seq<seq<real>>`, plus the
  index operations the engines build on:
  - the shape check;
  - minors (deleting a row and a column);
  - transposition;
  - division by a scalar;
  - the sign pattern;
  - entries of a matrix product.
- `determinant.dfy` (module `Determinant`) holds two determinants:
  - `Det`, the determinant exactly as the numeric engine computes it. It has
    closed forms up to 2 x 2, and the empty matrix gets 0.
  - `Laplace`, an independent reference definition: the bare first-row
    expansion, with 1 for the empty matrix.

  The module also has the cofactor matrix, and proofs relating all of these.
- `engines.dfy` (module `Engines`): the loops of the application as methods.
  - Minors are built row by row.
  - Result grids start as zeros and are filled cell by cell.
  - Every step is emitted in page order, as a `Step` record without its
    display text.

  Each method is proved equal to a specification function. Each trace is
  proved to be row-major.
- `solver.dfy` (module `Solver`): the solve action.
  - `SolveOutcome` is the outcome as a function of the grid.
  - `Solve` runs the engines in order.
  - Lemmas characterise the decision and the results, including that row 0
    of A times column 0 of the computed inverse is exactly 1.
- `scenarios.dfy` (module `Scenarios`): the solve action on concrete grids.
- `correction.dfy` (module `Correction`): the flow with the empty minor given
  determinant 1 (see Findings).

The model follows the code in these places:

- **Ragged grids.** The shape check compares the row count with the length
  of the first row only (script.js:88); no other row is looked at. So
  `[[1,2],[3,4,5]]` passes it (`Scenarios.RaggedGridPassesShapeCheck`). The
  grid reader always produces rectangular grids, so `Solve` requires a
  rectangular grid and models the check exactly as written.
- **1 x 1 matrices.** The determinant step expands one level and hands each
  minor to the numeric engine. For a 1 x 1 matrix the only minor is empty,
  and the engine gives it 0, so the step's value is 0. The solve action
  therefore reports every 1 x 1 matrix singular, while the numeric engine
  alone gives `[[5]]` the determinant 5. The model keeps this behaviour.

## Model

| member | source | states |
|---|---|---|
| Matrices.IsSquare | script.js:88 | a grid that passes the shape check is non-empty |
| Matrices.IsSquareOnRectangular | script.js:88 | on a rectangular grid the shape check holds exactly when the grid is non-empty and has as many rows as columns |
| Matrices.Minor | script.js:97-102 | the minor has size n-1, is square, and entry (i, j) is A[i or i+1][j or j+1], skipping the deleted row and column |
| Matrices.Sign | script.js:103 | the sign factor is +1 or -1, and +1 exactly for an even index |
| Matrices.Transpose | script.js:188 | entry (j, i) of the result is entry (i, j) of the input, same size |
| Matrices.TransposeInvolutive | script.js:188 | transposing twice gives back the matrix |
| Matrices.DivideBy | script.js:200-201 | every entry of the result times the divisor gives back the input entry |
| Matrices.Zeros | script.js:149 | the initial result grid is n x n with every entry 0 |
| Determinant.DetIsLaplace | script.js:90-106 | for every non-empty matrix the numeric determinant (closed forms for 1 x 1 and 2 x 2) equals the reference Laplace expansion |
| Determinant.EmptyDeterminants | script.js:92 | the numeric engine gives the empty matrix 0, where the reference expansion gives 1 |
| Determinant.DetIsExpansion | script.js:94-105 | from 2 x 2 on, the numeric determinant is the full first-row expansion; the 2 x 2 closed form is that expansion written out |
| Determinant.OneByOneExpansionIsZero | script.js:114-128 | for a 1 x 1 matrix the one-level expansion of the determinant step sums to 0 |
| Determinant.DetOfZeroRow | script.js:90-106 | a matrix with a zero row has numeric determinant 0 |
| Determinant.Cofactors | script.js:149-171 | the cofactor matrix is n x n and entry (i, j) is the cofactor of entry (i, j) of A |
| Determinant.FirstRowCofactorExpansion | script.js:168-171 | row 0 of A dotted with row 0 of its cofactor matrix equals the determinant, for every n >= 2 |
| Engines.RowWithout | script.js:100 | the row loop yields the row without the entry in the deleted column, the others in order |
| Engines.BuildMinor | script.js:97-102 | the nested minor loop (also at script.js:115-120 and 153-159) returns exactly the minor deleting row r and column c |
| Engines.DetNumeric | script.js:90-106 | the numeric engine returns Det(A) for every square matrix |
| Engines.ColumnTerm | script.js:115-126 | a column of the determinant step yields cofactor (0, col) and the term entry times cofactor, which is the expansion term of that column |
| Engines.DeterminantSteps | script.js:108-144 | the determinant step returns Det(A) from n = 2 on and 0 for 1 x 1 (and 0 for the empty grid); its lines are `DeterminantTrace(A)`: one `TermStep` record per column, in column order, then the total |
| Engines.TermStepLine | script.js:123-135 | the record of column c carries cofactor (0, c), which the cofactor line shows, and the term A[0][c] times that cofactor, which the term line shows |
| Engines.DeterminantTraceLines | script.js:114-139 | the determinant lines are n records and a total: position c holds the record of column c, and the total is the sum of the recorded terms |
| Engines.TermsAddUp | script.js:127-139 | the total on the last line of the determinant step is the sum of the terms on the lines before it |
| Engines.CellCofactor | script.js:153-170 | one cell of the cofactor step is the signed determinant of the minor deleting row i and column j |
| Engines.FillCofactorRow | script.js:152-176 | the inner loop of the cofactor step sets row i to the cofactors of row i, leaves every other row unchanged, and emits one line per cell of the row in column order |
| Engines.CofactorMatrixSteps | script.js:146-182 | the cofactor step returns the cofactor matrix and emits one line per cell in row-major order, then the matrix |
| Engines.CellTraceIsRowMajor | script.js:151-152 | a cell trace has n*n lines and lists cell (i, j) at position i*n + j |
| Engines.EmitCells | script.js:189 | the adjoint lines are the cells of the finished adjoint in row-major order |
| Engines.AdjointSteps | script.js:184-193 | the adjoint step returns the transpose of the cofactor matrix, then emits its cells and the matrix |
| Engines.FillInverseRow | script.js:200-204 | the inner loop of the inverse step sets row i to adjoint row i divided by the determinant, leaves every other row unchanged, and emits one line per cell of the row in column order |
| Engines.InverseSteps | script.js:195-208 | the inverse step returns the adjoint divided entry by entry by the determinant; the scaling line comes first, then one line per cell in row-major order, then the matrix |
| Solver.SolveOutcome | script.js:210-223 | an empty grid ends with the "No matrix input" error and only then; a non-empty grid failing the shape check ends with the "not square" error and only then; a grid passing the check ends singular or invertible; a singular outcome carries a determinant below 1e-12 in magnitude, an invertible one a determinant at least 1e-12 in magnitude |
| Solver.Abs | script.js:218 | the magnitude is non-negative and equals x or -x |
| Solver.Solve | script.js:210-223 | the outcome is `SolveOutcome(A)`. An empty grid or a failed shape check emits no step: its error card is the outcome itself. A singular matrix emits the original matrix and the determinant lines only, with no cell or scaling line; its "Result" card is the outcome. An invertible one emits the original, determinant, cofactor, adjoint and inverse stages in that order |
| Solver.OneByOneIsSingular | script.js:217-218 | every 1 x 1 matrix ends as singular with determinant 0 |
| Solver.DecisionFromTwo | script.js:217-218 | from 2 x 2 on: singular exactly when the magnitude of Det(A) is below 1e-12, invertible exactly otherwise, and the reported determinant is Det(A) |
| Solver.InvertibleOutcome | script.js:217-222 | an invertible outcome needs a square matrix of size >= 2 whose determinant is at least 1e-12 in magnitude; the outcome carries Det(A), the cofactor matrix, its transpose, and that transpose divided by Det(A) |
| Solver.InvertibleEntries | script.js:220-222 | in an invertible outcome, cofactor (i, j) is the signed minor determinant, adjoint (j, i) equals cofactor (i, j), and inverse (j, i) times the determinant is cofactor (i, j) |
| Solver.InverseTopLeft | script.js:210-223 | for every invertible outcome, row 0 of A times column 0 of the computed inverse is exactly 1 |
| Scenarios.TwoByTwoDeterminant | script.js:94 | the determinant of 1 2 / 3 4 is -2 |
| Scenarios.OneByOneDeterminant | script.js:93 | the numeric determinant of [[5]] is 5 |
| Scenarios.FiveReportedSingular | script.js:217-218 | the solve action still reports [[5]] singular, with determinant 0 |
| Scenarios.EmptyGrid | script.js:213 | an empty grid ends with the "No matrix input" error |
| Scenarios.TwoByThreeGrid | script.js:214 | a 2 x 3 grid ends with the "not square" error |
| Scenarios.RaggedGridPassesShapeCheck | script.js:88 | the shape check accepts the ragged grid [[1,2],[3,4,5]] |
| Scenarios.ThreeByThreeSingular | script.js:217-218 | 1 2 3 / 4 5 6 / 7 8 9 ends as singular with determinant 0 |
| Scenarios.TwoByTwoInvertible | script.js:210-223 | 2 0 / 0 2 ends as invertible with determinant 4, cofactor and adjoint 2 0 / 0 2, and inverse 0.5 0 / 0 0.5 |
| Correction.LaplaceCofactors | script.js:168-171 | the corrected cofactor matrix holds the sign times the reference determinant of each minor |
| Correction.LaplaceCofactorsFromTwo | script.js:168-171 | from 2 x 2 on, the corrected cofactor matrix equals the one the application computes |
| Correction.CorrectionAgreesOffOneByOne | script.js:92 | giving the empty minor determinant 1 changes the outcome of no grid except 1 x 1 ones |
| Correction.CorrectedOneByOne | script.js:92 | with the correction, [[x]] is singular exactly when the magnitude of x is below 1e-12, and otherwise inverts to [[1/x]] with cofactor and adjoint [[1]] |
| Correction.CorrectedInverseTopLeft | script.js:92 | with the correction, row 0 of A times column 0 of the inverse is 1 for every invertible outcome, 1 x 1 included |

## Left out

- The page and the DOM are not modelled. This covers the grid reader
  (`readMatrix`, where an empty field reads as 0 and other text goes through
  `parseFloat`), the cards, the tables, the clear button and `fmtNum`. The
  solve action takes the grid it read as a parameter.
- The text of the explanation lines is not modelled. Each line is a `Step`
  record carrying the values the text shows, except that one `TermStep`
  record stands for the two lines of a column in the determinant card (its
  cofactor line and its term line). The one-line "Error" and "Result" cards
  are not steps: the `Outcome` of the solve action stands for them. The "det(minor)" text built for
  2 x 2 minors at script.js:161-166 affects only display.
- Entries are exact reals, not IEEE-754 doubles. Rounding, NaN and infinities
  are not modelled. The 1e-12 tolerance is compared exactly.
- JavaScript arrays are modelled as values. Every result array in the engines
  is a fresh local that nothing else references, so in-place filling is
  modelled as updates by index of a sequence value.
- Solver.InverseTopLeft: proves only entry (0, 0) of A times the inverse, not
  the whole identity A times A^-1 = I. The other entries need the expansion
  along every row, plus the vanishing of alien cofactor sums; neither is part
  of this model.
- The exponential running time of recursive expansion is not modelled.

## Findings

| source | as written | input that shows it | evidently intended | confidence | as-written member | corrected member |
|---|---|---|---|---|---|---|
| script.js:92 | `detNumeric` returns 0 for the empty matrix. The determinant step (script.js:114-128) multiplies the single entry of a 1 x 1 matrix by that 0, so every 1 x 1 matrix is reported singular | `[[5]]`: the numeric determinant is 5, yet the solve action reports "Matrix is singular" with determinant 0 | the empty minor has determinant 1. Then `[[5]]` has determinant 5 and inverse `[[0.2]]`, and nothing changes from 2 x 2 on | medium, not executed | Solver.OneByOneIsSingular | Correction.CorrectedOneByOne |
