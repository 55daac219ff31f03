/**
  Three boards whose fate is known in advance: the board of blanks has a
  solution, a completely filled valid board solves to itself with every cell
  kept as a clue, and the classic puzzle has a completion whose first row
  reads 5 3 4 6 7 8 9 1 2.
 */
module KnownBoards {
  import opened Seqs
  import opened Grid
  import opened Formulas
  import opened Sudoku
  import opened SudokuProofs
  import opened Cli

  /** How far row `y` of the pattern grid is rotated: three per row within a band, one per band. */
  function Shift(y: nat): nat
    requires y < Size
  {
    if y == 0 then 0 else if y == 1 then 3 else if y == 2 then 6
    else if y == 3 then 1 else if y == 4 then 4 else if y == 5 then 7
    else if y == 6 then 2 else if y == 7 then 5 else 8
  }

  /** `v` reduced into [0, 9) for `v` below 18. */
  function Wrap(v: nat): nat
    requires v < 18
  {
    if v < 9 then v else v - 9
  }

  /** The digit at `p` in a fixed completed Sudoku: row `y` is 1..9 rotated by Shift(y). */
  function PatternDigit(p: Pos): int
    requires OnBoard(p)
  {
    Wrap(p.x + Shift(p.y)) + 1
  }

  function PatternGrid(): (g: map<Pos, int>)
    ensures g.Keys == AllPositions()
    ensures forall p :: p in g ==> g[p] == PatternDigit(p)
  {
    map p | p in AllPositions() :: PatternDigit(p)
  }

  /** Two numbers below 18 that differ by less than 9 wrap to different digits. */
  lemma WrapInjective(u: nat, v: nat)
    requires u < 18 && v < 18 && u != v && u < v + 9 && v < u + 9
    ensures Wrap(u) != Wrap(v)
  {
  }

  /** Within one band of three rows the rotation grows by three per row. */
  lemma ShiftInBand(y: nat)
    requires y < Size
    ensures Shift(y) == 3 * (y - CubeStart(y)) + CubeStart(y) / 3
  {
  }

  lemma PatternRowsDistinct(p: Pos, q: Pos)
    requires OnBoard(p) && OnBoard(q) && p != q && p.y == q.y
    ensures PatternDigit(p) != PatternDigit(q)
  {
    WrapInjective(p.x + Shift(p.y), q.x + Shift(q.y));
  }

  lemma PatternColumnsDistinct(p: Pos, q: Pos)
    requires OnBoard(p) && OnBoard(q) && p != q && p.x == q.x
    ensures PatternDigit(p) != PatternDigit(q)
  {
    WrapInjective(p.x + Shift(p.y), q.x + Shift(q.y));
  }

  lemma PatternCubesDistinct(p: Pos, q: Pos)
    requires OnBoard(p) && OnBoard(q) && p != q && AnchorOf(p) == AnchorOf(q)
    ensures PatternDigit(p) != PatternDigit(q)
  {
    ShiftInBand(p.y);
    ShiftInBand(q.y);
    WrapInjective(p.x + Shift(p.y), q.x + Shift(q.y));
  }

  /** The pattern grid is a completed Sudoku. */
  lemma PatternIsSolved()
    ensures IsSolvedGrid(PatternGrid())
  {
    var g := PatternGrid();
    forall p, q | p in g && q in g && Peers(p, q) ensures g[p] != g[q] {
      if p.y == q.y {
        PatternRowsDistinct(p, q);
      } else if p.x == q.x {
        PatternColumnsDistinct(p, q);
      } else {
        PatternCubesDistinct(p, q);
      }
    }
  }

  /** The board of blanks gives a model with no clue that the solver can satisfy. */
  lemma EmptyBoardSolvable()
    ensures forall p :: p in NewModel(EmptyBoard()) ==> !NewModel(EmptyBoard())[p].IsSolution()
    ensures Satisfiable(NewModel(EmptyBoard()))
  {
    var g := PatternGrid();
    PatternIsSolved();
    assert AgreesWithClues(EmptyBoard(), g);
    SatisfiableIffSolvable(EmptyBoard());
  }

  /** The grid of numbers a board's bytes stand for. */
  function ClueGrid(input: seq<byte>): (g: map<Pos, int>)
    requires |input| >= CellCount
    ensures g.Keys == AllPositions()
    ensures forall p :: p in g ==> g[p] == ClueValue(input[Index(p)])
  {
    map p | p in AllPositions() :: ClueValue(input[Index(p)])
  }

  /** Every board position holds a clue. */
  ghost predicate Filled(input: seq<byte>)
    requires |input| >= CellCount
  {
    forall p :: OnBoard(p) ==> input[Index(p)] != Blank
  }

  /**
    A filled board that is a completed Sudoku: every cell is a clue, the model is
    satisfiable, and every satisfying assignment decodes to the board itself.
   */
  lemma FilledBoardSolvesToItself(input: seq<byte>)
    requires |input| >= CellCount && Filled(input) && IsSolvedGrid(ClueGrid(input))
    ensures forall p :: p in NewModel(input) ==> NewModel(input)[p].IsSolution()
    ensures Satisfiable(NewModel(input))
    ensures forall a :: EvalAll(ApplyConstraints(NewModel(input)), a) ==> Solution(NewModel(input), a) == ClueGrid(input)
  {
    var g := ClueGrid(input);
    assert AgreesWithClues(input, g);
    SatisfiableIffSolvable(input);
    forall a | EvalAll(ApplyConstraints(NewModel(input)), a) ensures Solution(NewModel(input), a) == g {
      FilledSolution(input, a);
    }
  }

  /** On a filled board, every assignment decodes to the clue grid. */
  lemma FilledSolution(input: seq<byte>, a: Assignment)
    requires |input| >= CellCount && Filled(input)
    ensures Solution(NewModel(input), a) == ClueGrid(input)
  {
    var m, g := NewModel(input), ClueGrid(input);
    assert m.Keys == g.Keys by {
      assert forall p :: p in m <==> p in g;
    }
    forall p | p in m ensures Value(m[p].value, a) == g[p] {
    }
    SolutionIs(m, a, g);
  }

  /** The classic puzzle, one string per row, '.' for an open square. */
  const ClassicClues: seq<string> := [
    "53..7....", "6..195...", ".98....6.",
    "8...6...3", "4..8.3..1", "7...2...6",
    ".6....28.", "...419..5", "....8..79"
  ]

  /** Its completion, one row of digits per board row. */
  const ClassicSolution: seq<seq<int>> := [
    [5, 3, 4, 6, 7, 8, 9, 1, 2], [6, 7, 2, 1, 9, 5, 3, 4, 8], [1, 9, 8, 3, 4, 2, 5, 6, 7],
    [8, 5, 9, 7, 6, 1, 4, 2, 3], [4, 2, 6, 8, 5, 3, 7, 9, 1], [7, 1, 3, 9, 2, 4, 8, 5, 6],
    [9, 6, 1, 5, 3, 7, 2, 8, 4], [2, 8, 7, 4, 1, 9, 6, 3, 5], [3, 4, 5, 2, 8, 6, 1, 7, 9]
  ]

  /** A board coordinate is one of 0 to 8; lets the proofs below go row by row. */
  lemma Coordinates(v: nat)
    requires v < Size
    ensures v == 0 || v == 1 || v == 2 || v == 3 || v == 4 || v == 5 || v == 6 || v == 7 || v == 8
  {
  }

  /** Both tables are 9 by 9 and hold digits, and the puzzle's symbols are '.' or the completion's digit. */
  lemma ClassicShape()
    ensures |ClassicClues| == Size && |ClassicSolution| == Size
    ensures forall y :: 0 <= y < Size ==> |ClassicClues[y]| == Size && |ClassicSolution[y]| == Size
    ensures Square(ClassicSolution)
    ensures forall y, x :: 0 <= y < Size && 0 <= x < Size ==> 1 <= ClassicSolution[y][x] <= 9
    ensures forall y, x :: 0 <= y < Size && 0 <= x < Size ==>
      (ClassicClues[y][x] == '.' || ClassicClues[y][x] as int - '0' as int == ClassicSolution[y][x])
  {
    forall y | 0 <= y < Size
      ensures |ClassicClues[y]| == Size && |ClassicSolution[y]| == Size
      ensures forall x :: 0 <= x < Size ==> 1 <= ClassicSolution[y][x] <= 9
      ensures forall x :: 0 <= x < Size ==>
        (ClassicClues[y][x] == '.' || ClassicClues[y][x] as int - '0' as int == ClassicSolution[y][x])
    {
      Coordinates(y);
    }
  }

  /** The byte of the classic puzzle at `p`. */
  function ClassicByte(p: Pos): (b: byte)
    requires OnBoard(p)
    ensures b == Blank || ClueValue(b) == ClassicSolution[p.y][p.x]
  {
    ClassicShape();
    ClassicClues[p.y][p.x] as int
  }

  /** A board whose bytes spell the classic puzzle. */
  ghost predicate IsClassic(input: seq<byte>) {
    |input| == CellCount && forall p :: OnBoard(p) ==> input[Index(p)] == ClassicByte(p)
  }

  /** The classic puzzle as the 81-byte row-major board the solver reads. */
  function ClassicBoard(): (b: seq<byte>)
    ensures IsClassic(b)
  {
    var b := seq(CellCount, i requires 0 <= i < CellCount => ClassicByte(PosAt(i)));
    forall p | OnBoard(p) ensures b[Index(p)] == ClassicByte(p) {
      IndexRoundTrip(p);
    }
    b
  }

  /** The completion as a grid. */
  function ClassicGrid(): (g: map<Pos, int>)
    ensures g.Keys == AllPositions()
    ensures forall p :: p in g ==> OnBoard(p) && g[p] == ClassicSolution[p.y][p.x]
  {
    ClassicShape();
    map p | p in AllPositions() :: ClassicSolution[p.y][p.x]
  }

  /** Nine entries that include every digit are pairwise different. */
  lemma AllDigitsDistinct(s: seq<int>)
    requires |s| == Size && forall d :: 1 <= d <= Size ==> d in s
    ensures Distinct(s)
  {
    var digits := {1, 2, 3, 4, 5, 6, 7, 8, 9};
    assert digits <= Elements(s);
    assert |Elements(s)| == |digits| + |Elements(s) - digits|;
    CardinalityDistinct(s);
  }

  /** A 9 by 9 table of numbers, one sequence per row. */
  predicate Square(t: seq<seq<int>>) {
    |t| == Size && forall y :: 0 <= y < Size ==> |t[y]| == Size
  }

  /** Column `x` of the table `t`, top to bottom. */
  function ColumnOf(t: seq<seq<int>>, x: nat): (c: seq<int>)
    requires Square(t) && x < Size
    ensures |c| == Size
    ensures forall y :: 0 <= y < Size ==> c[y] == t[y][x]
  {
    [t[0][x], t[1][x], t[2][x], t[3][x], t[4][x], t[5][x], t[6][x], t[7][x], t[8][x]]
  }

  /** The cube of the table `t` with corner `a`, row by row. */
  function CubeOf(t: seq<seq<int>>, a: Pos): (c: seq<int>)
    requires Square(t) && a.x + 3 <= Size && a.y + 3 <= Size
    ensures |c| == Size
  {
    var x, y := a.x, a.y;
    [t[y][x], t[y][x + 1], t[y][x + 2],
     t[y + 1][x], t[y + 1][x + 1], t[y + 1][x + 2],
     t[y + 2][x], t[y + 2][x + 1], t[y + 2][x + 2]]
  }

  /** The `k`-th entry of a cube is the table's value at the `k`-th cell of that cube. */
  lemma CubeOfCell(t: seq<seq<int>>, a: Pos, k: nat)
    requires Square(t) && a.x + 3 <= Size && a.y + 3 <= Size && k < Size
    ensures CubeOf(t, a)[k] == t[CubeCell(a, k).y][CubeCell(a, k).x]
  {
  }

  lemma ClassicRowsComplete()
    ensures forall y, d :: 0 <= y < Size && 1 <= d <= Size ==> d in ClassicSolution[y]
  {
    forall y | 0 <= y < Size ensures forall d :: 1 <= d <= Size ==> d in ClassicSolution[y] {
      Coordinates(y);
    }
  }

  lemma ClassicColumnsComplete()
    ensures Square(ClassicSolution)
    ensures forall x, d :: 0 <= x < Size && 1 <= d <= Size ==> d in ColumnOf(ClassicSolution, x)
  {
    ClassicSquare();
    forall x | 0 <= x < Size ensures forall d :: 1 <= d <= Size ==> d in ColumnOf(ClassicSolution, x) {
      Coordinates(x);
    }
  }

  /** The completion table is 9 by 9. */
  lemma ClassicSquare()
    ensures Square(ClassicSolution)
  {
    forall y | 0 <= y < Size ensures |ClassicSolution[y]| == Size {
      Coordinates(y);
    }
  }

  /** The cube anchored at `a` holds every digit. */
  lemma ClassicCubeComplete(a: Pos)
    requires a in CubeAnchors
    ensures Square(ClassicSolution)
    ensures forall d :: 1 <= d <= Size ==> d in CubeOf(ClassicSolution, a)
  {
    ClassicSquare();
  }

  lemma ClassicCubesComplete()
    ensures Square(ClassicSolution)
    ensures forall a, d :: a in CubeAnchors && 1 <= d <= Size ==> d in CubeOf(ClassicSolution, a)
  {
    ClassicSquare();
    forall a | a in CubeAnchors ensures forall d :: 1 <= d <= Size ==> d in CubeOf(ClassicSolution, a) {
      ClassicCubeComplete(a);
    }
  }

  lemma ClassicRowsDistinct()
    ensures RowsDistinct(ClassicGrid())
  {
    var g := ClassicGrid();
    forall p, q | p in g && q in g && p != q && p.y == q.y ensures g[p] != g[q] {
      ClassicShape();
      ClassicRowsComplete();
      AllDigitsDistinct(ClassicSolution[p.y]);
    }
  }

  lemma ClassicColumnsDistinct()
    ensures ColumnsDistinct(ClassicGrid())
  {
    var g := ClassicGrid();
    forall p, q | p in g && q in g && p != q && p.x == q.x ensures g[p] != g[q] {
      ClassicColumnsComplete();
      AllDigitsDistinct(ColumnOf(ClassicSolution, p.x));
      assert ColumnOf(ClassicSolution, p.x)[p.y] == g[p] && ColumnOf(ClassicSolution, p.x)[q.y] == g[q];
    }
  }

  lemma ClassicCubesDistinct()
    ensures CubesDistinct(ClassicGrid())
  {
    var g := ClassicGrid();
    forall p, q | p in g && q in g && p != q && AnchorOf(p) == AnchorOf(q) ensures g[p] != g[q] {
      var a := AnchorOf(p);
      AnchorListed(p);
      ClassicCubesComplete();
      AllDigitsDistinct(CubeOf(ClassicSolution, a));
      var i := CubeCellOnto(a, p);
      var j := CubeCellOnto(a, q);
      CubeOfCell(ClassicSolution, a, i);
      CubeOfCell(ClassicSolution, a, j);
    }
  }

  /** The completion is a completed Sudoku. */
  lemma ClassicSolutionIsSolved()
    ensures IsSolvedGrid(ClassicGrid())
  {
    ClassicShape();
    ClassicRowsDistinct();
    ClassicColumnsDistinct();
    ClassicCubesDistinct();
    SolvedGridByGroups(ClassicGrid());
  }

  /** Every clue of a board that spells the classic puzzle is the completion's digit there. */
  lemma ClassicCluesAgree(input: seq<byte>)
    requires IsClassic(input)
    ensures AgreesWithClues(input, ClassicGrid())
  {
  }

  /** Binding each open square to the completion's digit satisfies the classic puzzle's model. */
  lemma ClassicAssignment(input: seq<byte>)
    requires IsClassic(input)
    ensures EvalAll(ApplyConstraints(NewModel(input)), AssignmentFor(ClassicGrid()))
    ensures Solution(NewModel(input), AssignmentFor(ClassicGrid())) == ClassicGrid()
  {
    ClassicSolutionIsSolved();
    ClassicCluesAgree(input);
    SolutionGivesAssignment(input, ClassicGrid());
  }

  /**
    Every board that spells the classic puzzle has a solution: its model is
    satisfiable, and the assignment that binds each open square to the
    completion's digit satisfies it with a first row reading 5 3 4 6 7 8 9 1 2.
   */
  lemma ClassicBoardSolvable(input: seq<byte>)
    requires IsClassic(input)
    ensures Satisfiable(NewModel(input))
    ensures EvalAll(ApplyConstraints(NewModel(input)), AssignmentFor(ClassicGrid()))
    ensures forall x :: 0 <= x < Size ==>
      Solution(NewModel(input), AssignmentFor(ClassicGrid()))[Pos(x, 0)] == [5, 3, 4, 6, 7, 8, 9, 1, 2][x]
  {
    ClassicAssignment(input);
    ClassicSquare();
  }
}
