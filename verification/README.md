# Sudoku constraint model, in Dafny

This project models the core of a Sudoku solver. The solver turns an 81-byte
board into integer constraints for an SMT solver (Z3) and reads the digits back
from the solver's model. A small board generator places random clues using a
placement check.

The model covers the following.

- **Board positions** (`Grid`). A position is `Pos(x, y)`. Its byte in the raw
  board is at index `y * 9 + x`. The module defines the rows, the columns, and
  the nine 3x3 cubes as sequences of positions in the order the builder scans
  them. It also defines what a completed Sudoku is.
- **The formula fragment** the builder asserts (`Formulas`). Terms are named
  integer variables and literals. Formulas are `>=`, `<=`, `<`, `>`, n-ary `or`
  and n-ary `and`. `Eval` gives their meaning under an assignment of integers to
  variable names. The uniqueness constraint of a group of cells is one
  conjunction of pair clauses `s < t || s > t`, one clause for each two-element
  combination.
- **The model builder** (`Sudoku`). `Model::new` becomes `NewModel`, and
  `is_solution` becomes `Cell.IsSolution`. The cell constructors, the per-cell
  range constraints, `get_row`, `get_column`,
  `get_cube`, `constrain_rows`, `constrain_cols`, `constrain_cubes` and
  `apply_constraints` each have a counterpart.
- **What the asserted formulas mean** (`SudokuProofs`). An assignment satisfies
  everything asserted for a board exactly when the digits it gives the cells
  form a completed Sudoku that keeps every clue. So the model is satisfiable
  exactly when such a completion exists.
- **The generator's placement check and write step** (`Cli`). This covers
  `valid_placement`, both as written and with its cube guard corrected (see
  Findings), and the write of an accepted digit into the board. The outer loop
  of `generate_board` is modelled twice: with the check as written and with the
  corrected check.
- **Boards with known outcomes** (`KnownBoards`). The board of blanks is
  solvable. A filled valid board solves to itself. The classic puzzle
  `53..7....6..195....98....6.8...6...34..8.3..17...2...6.6....28....419..5....8..79`
  is solvable, with a completion whose first row reads 534678912.

Z3 is replaced by the `Eval` semantics. The solver's answer is modelled by the
predicate `Satisfiable(m)`: some assignment satisfies every asserted formula.
No solver call is made.

## Model

| member | source | states |
|---|---|---|
| Grid.IndexRoundTrip | src/sudoku/mod.rs:81-84 | Every board position reads its own byte of the raw board: row-major indexing `y * 9 + x` is inverted by PosAt, so no two positions share an index |
| Grid.RowMajorCoversBoard | src/sudoku/mod.rs:81-83 | The builder's nested loops, y outer and x inner, visit every board position exactly once |
| Grid.AllPositionsCount | src/sudoku/mod.rs:79-90 | The board map has exactly 81 positions |
| Grid.RowPositions | src/sudoku/mod.rs:173-181 | Row `y` is 9 distinct positions: exactly the positions with that `y`, in increasing `x` |
| Grid.ColumnPositions | src/sudoku/mod.rs:184-192 | Column `x` is 9 distinct positions: exactly the positions with that `x`, in increasing `y` |
| Grid.CubePositions | src/sudoku/mod.rs:160-170 | The cube at corner `a` is 9 distinct positions: exactly the 3x3 block from `a`, scanned row by row with `x` inner |
| Grid.CubesPartition | src/sudoku/mod.rs:126-137 | The nine listed corners are distinct. Their cubes lie on the board, cover it, and never overlap: every position is in the cube of its own corner and in no other |
| Grid.CubeStartRoundsDown | src/cli/mod.rs:84-85 | The band start used for cubes is the source's `(v / 3) * 3` |
| Formulas.PairClause | src/sudoku/mod.rs:149-154 | The clause `lt \|\| gt` over two terms holds exactly when their values differ |
| Formulas.DistinctPairsComplete | src/sudoku/mod.rs:146-148 | Every two-element combination `(ts[i], ts[j])` with `i < j` contributes its clause |
| Formulas.DistinctPairsSound | src/sudoku/mod.rs:146-148 | Each clause comes from some combination `(ts[i], ts[j])` with `i < j`, and no other clause appears |
| Formulas.DistinctPairsMeaning | src/sudoku/mod.rs:145-155 | All pair clauses hold exactly when the terms take pairwise different values, in both directions |
| Formulas.ConstrainDistinctValues | src/sudoku/mod.rs:145-158 | The asserted conjunction has `n(n-1)/2` clauses and holds exactly when the `n` terms take pairwise different values |
| Formulas.EvalAllAppend | src/sudoku/mod.rs:98-110 | Asserting two lists of formulas one after the other means asserting their conjunction |
| Sudoku.DefaultCell | src/sudoku/mod.rs:37-43 | An open square is not a clue, and its value is whatever the assignment binds to the name `value_x{x}_y{y}` |
| Sudoku.FromInputCell | src/sudoku/mod.rs:46-51 | A clue square is flagged as a clue, and its value is the literal under every assignment |
| Sudoku.VarNameInjective | src/sudoku/mod.rs:40 | Different board positions get different variable names |
| Sudoku.NewModel | src/sudoku/mod.rs:78-96 | The model has a cell at each of the 81 positions and nowhere else. A cell is a clue (its `is_solution` flag, `Cell.IsSolution`, is set) exactly when its byte is not '.'. A clue's value is the byte minus '0', with no digit check. An open cell's value is its own variable |
| Sudoku.FreeCellsHaveDistinctVariables | src/sudoku/mod.rs:37-43 | Two different open cells of a model never share a term |
| Sudoku.CellConstraints | src/sudoku/mod.rs:61-66 | The two assertions for one cell hold exactly when its value lies in [1, 9] |
| Sudoku.GetRow | src/sudoku/mod.rs:173-181 | 9 terms, the `x`-th being the cell at `(x, y)`, target cell included |
| Sudoku.GetColumn | src/sudoku/mod.rs:184-192 | 9 terms, the `y`-th being the cell at `(x, y)`, target cell included |
| Sudoku.GetCube | src/sudoku/mod.rs:160-170 | 9 terms, the `k`-th being the cell `k % 3` right and `k / 3` down from the corner |
| Sudoku.ConstrainRows | src/sudoku/mod.rs:112-117 | One conjunction of 36 pair clauses per row |
| Sudoku.ConstrainCols | src/sudoku/mod.rs:119-124 | One conjunction of 36 pair clauses per column |
| Sudoku.ConstrainCubes | src/sudoku/mod.rs:126-141 | One conjunction of 36 pair clauses per listed cube |
| Sudoku.ApplyConstraints | src/sudoku/mod.rs:98-110 | 162 range assertions (two per cell) followed by 27 uniqueness assertions |
| Sudoku.UniquenessClauseCount | src/sudoku/mod.rs:104-109 | Every assertion after the range constraints is a conjunction of 36 pair clauses |
| SudokuProofs.DomainMeaning | src/sudoku/mod.rs:99-102 | The range constraints hold exactly when every cell's value is in [1, 9] |
| SudokuProofs.RowsMeaning | src/sudoku/mod.rs:112-117 | The row constraints hold exactly when no row of the decoded board repeats a value |
| SudokuProofs.ColumnsMeaning | src/sudoku/mod.rs:119-124 | The column constraints hold exactly when no column of the decoded board repeats a value |
| SudokuProofs.CubeMeaning | src/sudoku/mod.rs:138-139 | The constraint of the `i`-th listed cube holds exactly when no two cells with that corner share a value |
| SudokuProofs.CubesMeaning | src/sudoku/mod.rs:126-141 | The cube constraints hold exactly when no cube of the decoded board repeats a value |
| SudokuProofs.ConstraintGroupsMeaning | src/sudoku/mod.rs:98-110 | All assertions hold exactly when the values are in range and every row, column and cube is repeat-free |
| SudokuProofs.ConstraintsMeaning | src/sudoku/mod.rs:98-110 | All assertions hold exactly when the decoded board is a completed Sudoku |
| SudokuProofs.CluesKept | src/sudoku/mod.rs:45-51 | Under every assignment the decoded board keeps each clue of the input |
| SudokuProofs.ModelMeaning | src/sudoku/mod.rs:78-110 | An assignment satisfies everything asserted for a board exactly when the decoded board is a completed Sudoku that keeps every clue |
| SudokuProofs.AssignmentRoundTrip | src/sudoku/mod.rs:37-51 | For a completion that keeps the clues, binding each open cell's variable to its digit decodes back to that completion |
| SudokuProofs.SolutionGivesAssignment | src/sudoku/mod.rs:78-110 | Every completed Sudoku that keeps the clues is the decoding of a satisfying assignment |
| SudokuProofs.SatisfiableIffSolvable | src/sudoku/mod.rs:6-16 | The solver can find a model exactly when the board has a completion that keeps its clues |
| SudokuProofs.NonDigitClueUnsatisfiable | src/sudoku/mod.rs:87 | A non-blank byte outside '1'..'9' gives a clue outside [1, 9], so the model is unsatisfiable |
| SudokuProofs.DuplicateCluesUnsatisfiable | src/sudoku/mod.rs:104-109 | Two equal clues in one row, column or cube make the model unsatisfiable |
| Cli.ScanRow | src/cli/mod.rs:65-72 | The row scan finds `val` exactly when another cell of row `y` holds it |
| Cli.ScanColumn | src/cli/mod.rs:74-81 | The column scan finds `val` exactly when another cell of column `x` holds it |
| Cli.ScanCube | src/cli/mod.rs:83-94 | The cube scan finds `val` exactly when a cell of the cube of `(x, y)` that passes the guard holds it |
| Cli.ValidPlacement | src/cli/mod.rs:64-97 | As written, the check accepts exactly when no peer of `(x, y)` holds `val`, except peers in the guard's blind spot: cube cells on row `x`, outside row `y` and column `x` |
| Cli.AcceptedMeaning | src/cli/mod.rs:64-97 | For any row the cube guard compares with, the three scans reject exactly when an inspected peer holds `val` |
| Cli.AsWrittenBlindSpot | src/cli/mod.rs:88 | As written, the check's verdict does not depend on the cells of the blind spot |
| Cli.OwnCellIgnored | src/cli/mod.rs:67 | The check never reads the cell being placed, so a filled target can be overwritten |
| Cli.AsWrittenAcceptsMore | src/cli/mod.rs:88 | Whatever the corrected check accepts, the check as written accepts too |
| Cli.AsWrittenAcceptsCubeDuplicate | src/cli/mod.rs:88 | On the blank board with a '5' at `(0, 1)`, the check as written accepts '5' at `(1, 0)` and the corrected check refuses it |
| Cli.AsWrittenPlacementUnsolvable | src/cli/mod.rs:54-55 | Writing that accepted '5' turns a consistent board into one with a repeated clue, whose model is unsatisfiable |
| Cli.ValidPlacementCorrected | src/cli/mod.rs:64-97 | With the guard corrected, the check accepts exactly when no peer of `(x, y)` holds `val` |
| Cli.CorrectedChecksEveryPeer | src/cli/mod.rs:84-94 | With the guard corrected the blind spot is empty: the scans inspect every peer |
| Cli.EmptyBoard | src/cli/mod.rs:43-46 | The starting board is 81 bytes, all '.' |
| Cli.WriteClue | src/cli/mod.rs:55 | The write keeps the board's length, puts `val` at `(x, y)`, and changes no other position |
| Cli.SatisfiableMeansConsistent | src/sudoku/mod.rs:104-109 | A board whose model is satisfiable has no two peers holding the same clue |
| Cli.CorrectedPlacementKeepsConsistency | src/cli/mod.rs:54-55 | Writing a digit the corrected check accepts keeps a consistent board consistent |
| Cli.PlaceClue | src/cli/mod.rs:54-56 | One generation step writes the candidate exactly when no peer holds it, changes no other cell, leaves the board alone otherwise, and keeps a consistent board consistent |
| Cli.Generate | src/cli/mod.rs:48-59 | The outer loop of `generate_board`, with the corrected check, driven by a list of draws. Its contract gives only that the board keeps its length; consistency is stated by `Cli.GenerateKeepsConsistency` |
| Cli.GenerateAsWritten | src/cli/mod.rs:48-59 | The outer loop of `generate_board` as written, calling `valid_placement` with its guard as written. Its contract gives only that the board keeps its length; `Cli.AsWrittenGenerateDiverges` shows what it does on a concrete run |
| Cli.AsWrittenGenerateDiverges | src/cli/mod.rs:48-59 | Starting from the blank board with the draws (0, 1, '5'), (1, 0, '5') and two placements wanted: the loop as written writes both '5's, ending on a board with two peers holding '5' whose model is unsatisfiable. The corrected loop refuses the second draw and ends with only the first '5' |
| Cli.GenerateKeepsConsistency | src/cli/mod.rs:48-59 | Any run of the corrected generator from a consistent board ends on a consistent board |
| Cli.GeneratedBoardConsistent | src/cli/mod.rs:40-61 | Every board the corrected generator builds from the blank board, whatever the draws, has no two peers holding the same clue |
| KnownBoards.PatternIsSolved | src/sudoku/mod.rs:98-110 | A fixed rotation pattern is a completed Sudoku |
| KnownBoards.EmptyBoardSolvable | src/cli/mod.rs:43-46 | The blank board's model has no clue and is satisfiable |
| KnownBoards.FilledBoardSolvesToItself | src/sudoku/mod.rs:78-96 | For a filled valid board every cell is a clue, the model is satisfiable, and every satisfying assignment decodes to the board itself |
| KnownBoards.ClassicSolutionIsSolved | src/sudoku/mod.rs:98-110 | The classic puzzle's completion is a completed Sudoku: every row, column and cube holds nine different digits |
| KnownBoards.ClassicBoardSolvable | src/sudoku/mod.rs:78-110 | The classic puzzle's model is satisfiable. Binding each open square to the completion's digit satisfies every asserted formula, and the solution then read back has the first row 5 3 4 6 7 8 9 1 2 |

## Left out

- Z3 itself is left out: the context, `solve`'s solver call, `check`, and `get_model`. `Satisfiable` stands for a `Sat` answer. `solve` returning `None` on `Unknown` is not modelled.
- `z3::ast::Int::fresh_const` adds a unique suffix to its name prefix. The model uses the prefix `value_x{x}_y{y}` as the variable's identity. `VarNameInjective` shows the prefixes are already distinct, so nothing depends on the suffix.
- HashMap iteration order is left out. The range constraints are listed in row-major order instead (`src/sudoku/mod.rs:100-102` iterates `board.values()` in an unspecified order). Asserted formulas form a conjunction, so their order does not change their meaning.
- Panics are left out. `Model::new` indexes `input[(y * 9) + x]` and panics on a board shorter than 81 bytes. `NewModel` requires at least 81 bytes instead. `valid_placement` is only called with `x, y < 9` and an 81-byte board. The model requires `x, y < 9` and a board of at least 81 bytes.
- Input validation is left out because `Model::new` performs none (src/sudoku/mod.rs:85-87): any byte other than '.' becomes a clue of value byte minus '0'. `NonDigitClueUnsatisfiable` shows that the model of a board with a byte outside '.' and '1'..'9' is unsatisfiable, so such a board is reported as unsolvable.
- The comments on `get_row` and `get_column` say "all row members except the target". The code includes the target, and the model follows the code.
- Decoding and display are left out (`src/display/mod.rs`, `get_value`). `Solution(m, a)` stands for evaluating each cell's term in the solver's model.
- Command-line parsing is left out (`Args`, clap) and so is `main`. They are I/O and glue.
- `board_from_file` is left out: it is file I/O plus whitespace filtering.
- Random draws are left out. `Generate` takes the candidates a random generator would produce as a list. Each rejected candidate is drawn again, and generation stops after `count` accepted placements, which `src/cli/mod.rs:48` sets to `generate + 1`.
- Cli.Generate: uses the corrected check, not valid_placement as written (see Findings; `Cli.GenerateAsWritten` is the loop as written). Its contract gives only that the length is kept.
- Cli.PlaceClue: uses the corrected check, not the check as written (see Findings).
- Cli.GenerateKeepsConsistency: is about the generator with the corrected check. With the check as written, consistency can break (Cli.AsWrittenPlacementUnsolvable).
- Cli.GeneratedBoardConsistent: is about the generator with the corrected check, for the same reason.
- KnownBoards.ClassicBoardSolvable: exhibits one completion of the classic puzzle but does not prove it is the only one. Uniqueness would need a proof that searches every completion.
- The `u8` arithmetic of `src/cli/mod.rs:50` is not modelled. It cannot overflow, because the candidate is at most '9'.

## Findings

| source | as written | input that shows it | evidently intended | confidence | as-written member | corrected member |
|---|---|---|---|---|---|---|
| src/cli/mod.rs:88 | `if check_y != x && check_x != x`: the cube scan skips every cube cell on row `x` instead of row `y` | Blank board with '5' at column 0, row 1 (index 9). `valid_placement(board, 1, 0, b'5')` accepts, because cell (0, 1) is on row 1 == x. The written board repeats '5' in the top-left cube, and its model is unsatisfiable | `check_y != y && check_x != x`: skip the candidate's own row and column, which the row and column scans already cover | not executed | Cli.AsWrittenAcceptsCubeDuplicate | Cli.ValidPlacementCorrected |
