/**
  What the asserted formulas mean: an assignment satisfies everything the
  builder asserts exactly when the board it yields is a completed Sudoku that
  keeps every clue, and the model is satisfiable exactly when such a completion exists.
 */
module SudokuProofs {
  import opened Seqs
  import opened Grid
  import opened Formulas
  import opened Sudoku

  /** The range constraints of the cells at `ps` hold exactly when each of those cells takes a value in [1, 9]. */
  lemma {:induction false} CellsConstraintsMeaning(m: Model, ps: seq<Pos>, a: Assignment)
    requires forall k :: 0 <= k < |ps| ==> ps[k] in m
    ensures EvalAll(CellsConstraints(m, ps), a) <==>
      forall k :: 0 <= k < |ps| ==> 1 <= Value(m[ps[k]].value, a) <= 9
    decreases |ps|
  {
    if ps != [] {
      var tail := ps[1..];
      CellsConstraintsMeaning(m, tail, a);
      EvalAllAppend(CellConstraints(m[ps[0]]), CellsConstraints(m, tail), a);
      assert forall k :: 1 <= k < |ps| ==> ps[k] == tail[k - 1];
    }
  }

  /** The range constraints of the cells at `ps` cover the whole model when `ps` lists every position of it. */
  lemma CellsConstraintsCover(m: Model, ps: seq<Pos>, a: Assignment)
    requires forall k :: 0 <= k < |ps| ==> ps[k] in m
    requires forall p :: p in m ==> p in ps
    ensures EvalAll(CellsConstraints(m, ps), a) <==> InRange(Solution(m, a))
  {
    CellsConstraintsMeaning(m, ps, a);
    var g := Solution(m, a);
    if EvalAll(CellsConstraints(m, ps), a) {
      forall p | p in g ensures 1 <= g[p] <= 9 {
        var k :| 0 <= k < |ps| && ps[k] == p;
      }
    }
  }

  /** The range constraints of a complete model hold exactly when every cell takes a value in [1, 9]. */
  lemma DomainMeaning(m: Model, a: Assignment)
    requires Complete(m)
    ensures EvalAll(DomainConstraints(m), a) <==> InRange(Solution(m, a))
  {
    RowMajorListsModel(m);
    CellsConstraintsCover(m, RowMajor(), a);
  }

  /** The row-major scan lists exactly the positions of a complete model. */
  lemma RowMajorListsModel(m: Model)
    requires Complete(m)
    ensures forall k :: 0 <= k < |RowMajor()| ==> RowMajor()[k] in m
    ensures forall p :: p in m ==> p in RowMajor()
  {
    RowMajorCoversBoard();
    assert forall p :: p in m ==> p in Elements(RowMajor());
  }

  /**
    For a sequence of distinct positions, the values of their cells are pairwise
    different exactly when no two of the positions hold the same value.
   */
  lemma GroupMeaning(m: Model, ps: seq<Pos>, a: Assignment)
    requires Distinct(ps)
    requires forall k :: 0 <= k < |ps| ==> ps[k] in m
    ensures Distinct(Values(Select(m, ps), a)) <==>
      forall p, q :: p in ps && q in ps && p != q ==> Solution(m, a)[p] != Solution(m, a)[q]
  {
    var vs := Values(Select(m, ps), a);
    var g := Solution(m, a);
    assert forall k :: 0 <= k < |ps| ==> vs[k] == g[ps[k]];
    if Distinct(vs) {
      forall p, q | p in ps && q in ps && p != q ensures g[p] != g[q] {
        var i :| 0 <= i < |ps| && ps[i] == p;
        var j :| 0 <= j < |ps| && ps[j] == q;
        assert vs[i] != vs[j];
      }
    }
  }

  /** The uniqueness constraint of row `y` holds exactly when no two cells of that row share a value. */
  lemma RowMeaning(m: Model, y: nat, a: Assignment)
    requires Complete(m) && y < Size
    ensures Eval(ConstrainRows(m)[y], a) <==>
      forall p, q :: p in m && q in m && p != q && p.y == y && q.y == y ==>
        Solution(m, a)[p] != Solution(m, a)[q]
  {
    var ps := RowPositions(y);
    assert GetRow(m, y) == Select(m, ps);
    GroupMeaning(m, ps, a);
  }

  /** The uniqueness constraint of column `x` holds exactly when no two cells of that column share a value. */
  lemma ColumnMeaning(m: Model, x: nat, a: Assignment)
    requires Complete(m) && x < Size
    ensures Eval(ConstrainCols(m)[x], a) <==>
      forall p, q :: p in m && q in m && p != q && p.x == x && q.x == x ==>
        Solution(m, a)[p] != Solution(m, a)[q]
  {
    var ps := ColumnPositions(x);
    assert GetColumn(m, x) == Select(m, ps);
    GroupMeaning(m, ps, a);
  }

  /** The uniqueness constraint of the `i`-th cube holds exactly when no two cells of that cube share a value. */
  lemma CubeMeaning(m: Model, i: nat, a: Assignment)
    requires Complete(m) && i < Size
    ensures Eval(ConstrainCubes(m)[i], a) <==>
      forall p, q :: p in m && q in m && p != q && AnchorOf(p) == CubeAnchors[i] && AnchorOf(q) == CubeAnchors[i] ==>
        Solution(m, a)[p] != Solution(m, a)[q]
  {
    var anchor := CubeAnchors[i];
    assert ConstrainCubes(m)[i] == ConstrainDistinctValues(GetCube(m, anchor));
    CubeScanMeaning(m, anchor, a);
    CubeGroupIsAnchorClass(Solution(m, a), anchor);
  }

  /** The uniqueness constraint of the cube at `anchor` holds exactly when no two positions of its scan share a value. */
  lemma CubeScanMeaning(m: Model, anchor: Pos, a: Assignment)
    requires Complete(m) && anchor in CubeAnchors
    ensures forall p :: p in CubePositions(anchor) ==> p in m
    ensures Eval(ConstrainDistinctValues(GetCube(m, anchor)), a) <==>
      forall p, q :: p in CubePositions(anchor) && q in CubePositions(anchor) && p != q ==>
        Solution(m, a)[p] != Solution(m, a)[q]
  {
    var ps := CubePositions(anchor);
    forall p | p in ps ensures OnBoard(p) {
      AnchorInCube(anchor, p);
    }
    assert GetCube(m, anchor) == Select(m, ps);
    GroupMeaning(m, ps, a);
  }

  /** Pairs inside the cube of `anchor` are exactly the pairs of board positions with that anchor. */
  lemma CubeGroupIsAnchorClass(g: map<Pos, int>, anchor: Pos)
    requires anchor in CubeAnchors
    requires forall p :: p in g <==> OnBoard(p)
    ensures (forall p, q :: p in CubePositions(anchor) && q in CubePositions(anchor) && p != q ==> p in g && q in g && g[p] != g[q]) <==>
      forall p, q :: p in g && q in g && p != q && AnchorOf(p) == anchor && AnchorOf(q) == anchor ==> g[p] != g[q]
  {
    CubeMembershipAll(anchor);
    forall p | p in CubePositions(anchor) ensures OnBoard(p) {
      AnchorInCube(anchor, p);
    }
  }

  /** constrain_rows: all row constraints hold exactly when no row of the solved board repeats a value. */
  lemma RowsMeaning(m: Model, a: Assignment)
    requires Complete(m)
    ensures EvalAll(ConstrainRows(m), a) <==> RowsDistinct(Solution(m, a))
  {
    var fs, g := ConstrainRows(m), Solution(m, a);
    if EvalAll(fs, a) {
      forall p, q | p in g && q in g && p != q && p.y == q.y ensures g[p] != g[q] {
        RowMeaning(m, p.y, a);
      }
    }
    if RowsDistinct(g) {
      forall y | 0 <= y < |fs| ensures Eval(fs[y], a) {
        RowMeaning(m, y, a);
      }
    }
  }

  /** constrain_cols: all column constraints hold exactly when no column of the solved board repeats a value. */
  lemma ColumnsMeaning(m: Model, a: Assignment)
    requires Complete(m)
    ensures EvalAll(ConstrainCols(m), a) <==> ColumnsDistinct(Solution(m, a))
  {
    var fs, g := ConstrainCols(m), Solution(m, a);
    if EvalAll(fs, a) {
      forall p, q | p in g && q in g && p != q && p.x == q.x ensures g[p] != g[q] {
        ColumnMeaning(m, p.x, a);
      }
    }
    if ColumnsDistinct(g) {
      forall x | 0 <= x < |fs| ensures Eval(fs[x], a) {
        ColumnMeaning(m, x, a);
      }
    }
  }

  /** constrain_cubes: all cube constraints hold exactly when no cube of the solved board repeats a value. */
  lemma CubesMeaning(m: Model, a: Assignment)
    requires Complete(m)
    ensures EvalAll(ConstrainCubes(m), a) <==> CubesDistinct(Solution(m, a))
  {
    var fs, g := ConstrainCubes(m), Solution(m, a);
    if EvalAll(fs, a) {
      forall p, q | p in g && q in g && p != q && AnchorOf(p) == AnchorOf(q) ensures g[p] != g[q] {
        AnchorListed(p);
        var i :| 0 <= i < Size && CubeAnchors[i] == AnchorOf(p);
        CubeMeaning(m, i, a);
      }
    }
    if CubesDistinct(g) {
      forall i | 0 <= i < |fs| ensures Eval(fs[i], a) {
        CubeMeaning(m, i, a);
      }
    }
  }

  /**
    The asserted formulas of a complete model hold exactly when every cell is in
    range and no row, column or cube repeats a value.
   */
  lemma ConstraintGroupsMeaning(m: Model, a: Assignment)
    requires Complete(m)
    ensures EvalAll(ApplyConstraints(m), a) <==>
      var g := Solution(m, a);
      InRange(g) && RowsDistinct(g) && ColumnsDistinct(g) && CubesDistinct(g)
  {
    var dom, rows, cols, cubes := DomainConstraints(m), ConstrainRows(m), ConstrainCols(m), ConstrainCubes(m);
    assert ApplyConstraints(m) == dom + (rows + cols + cubes);
    EvalAllAppend(dom, rows + cols + cubes, a);
    EvalAllAppend(rows + cols, cubes, a);
    EvalAllAppend(rows, cols, a);
    DomainMeaning(m, a);
    RowsMeaning(m, a);
    ColumnsMeaning(m, a);
    CubesMeaning(m, a);
  }

  /**
    Model::apply_constraints: an assignment satisfies every asserted formula of a
    complete model exactly when the board it yields is a completed Sudoku.
   */
  lemma ConstraintsMeaning(m: Model, a: Assignment)
    requires Complete(m)
    ensures EvalAll(ApplyConstraints(m), a) <==> IsSolvedGrid(Solution(m, a))
  {
    ConstraintGroupsMeaning(m, a);
    SolvedBoardByGroups(m, a);
  }

  lemma SolvedBoardByGroups(m: Model, a: Assignment)
    requires Complete(m)
    ensures var g := Solution(m, a);
      IsSolvedGrid(g) <==> InRange(g) && RowsDistinct(g) && ColumnsDistinct(g) && CubesDistinct(g)
  {
    var g := Solution(m, a);
    assert g.Keys == AllPositions();
    SolvedGridByGroups(g);
  }

  /** Every clue of the input survives in the solved board, whatever the assignment. */
  lemma CluesKept(input: seq<byte>, a: Assignment)
    requires |input| >= CellCount
    ensures AgreesWithClues(input, Solution(NewModel(input), a))
  {
  }

  /**
    The headline property: an assignment satisfies everything asserted for a raw
    board exactly when the board it yields is a completed Sudoku that keeps every clue.
   */
  lemma ModelMeaning(input: seq<byte>, a: Assignment)
    requires |input| >= CellCount
    ensures EvalAll(ApplyConstraints(NewModel(input)), a) <==>
      IsSolvedGrid(Solution(NewModel(input), a)) && AgreesWithClues(input, Solution(NewModel(input), a))
  {
    ConstraintsMeaning(NewModel(input), a);
    CluesKept(input, a);
  }

  /**
    Decoding the assignment built from a completion that keeps the clues gives
    back that completion.
   */
  lemma AssignmentRoundTrip(input: seq<byte>, g: map<Pos, int>)
    requires |input| >= CellCount
    requires g.Keys == AllPositions() && AgreesWithClues(input, g)
    ensures Solution(NewModel(input), AssignmentFor(g)) == g
  {
    var m, a := NewModel(input), AssignmentFor(g);
    assert m.Keys == g.Keys by {
      assert forall p :: p in m <==> p in g;
    }
    forall p | p in m ensures Value(m[p].value, a) == g[p] {
      AssignmentValueAt(input, g, p);
    }
    SolutionIs(m, a, g);
  }

  /** The solved board is `g` when `g` has the model's positions and each cell evaluates to its entry. */
  lemma SolutionIs(m: Model, a: Assignment, g: map<Pos, int>)
    requires m.Keys == g.Keys
    requires forall p :: p in m ==> Value(m[p].value, a) == g[p]
    ensures Solution(m, a) == g
  {
  }

  /** At each position, decoding the assignment built from `g` gives the value of `g` there. */
  lemma AssignmentValueAt(input: seq<byte>, g: map<Pos, int>, p: Pos)
    requires |input| >= CellCount
    requires g.Keys == AllPositions() && AgreesWithClues(input, g)
    requires OnBoard(p)
    ensures Value(NewModel(input)[p].value, AssignmentFor(g)) == g[p]
  {
    var a := AssignmentFor(g);
    if input[Index(p)] == Blank {
      assert Value(NewModel(input)[p].value, a) == a(VarName(p));
    }
  }

  /**
    Conversely, every completed Sudoku that keeps the clues is the solved board
    of some satisfying assignment: the one binding each free cell's variable to its digit.
   */
  lemma SolutionGivesAssignment(input: seq<byte>, g: map<Pos, int>)
    requires |input| >= CellCount
    requires IsSolvedGrid(g) && AgreesWithClues(input, g)
    ensures Solution(NewModel(input), AssignmentFor(g)) == g
    ensures EvalAll(ApplyConstraints(NewModel(input)), AssignmentFor(g))
  {
    AssignmentRoundTrip(input, g);
    ConstraintsMeaning(NewModel(input), AssignmentFor(g));
  }

  /**
    solve returns a model exactly when one exists: the constraints of a raw board
    are satisfiable exactly when the board has a completion that keeps every clue.
   */
  lemma SatisfiableIffSolvable(input: seq<byte>)
    requires |input| >= CellCount
    ensures Satisfiable(NewModel(input)) <==>
      exists g :: IsSolvedGrid(g) && AgreesWithClues(input, g)
  {
    var m := NewModel(input);
    if Satisfiable(m) {
      var a :| EvalAll(ApplyConstraints(m), a);
      ModelMeaning(input, a);
      assert IsSolvedGrid(Solution(m, a));
    }
    if exists g :: IsSolvedGrid(g) && AgreesWithClues(input, g) {
      var g :| IsSolvedGrid(g) && AgreesWithClues(input, g);
      SolutionGivesAssignment(input, g);
    }
  }

  /** A clue byte that is not one of '1'..'9' makes the constraints unsatisfiable. */
  lemma NonDigitClueUnsatisfiable(input: seq<byte>, p: Pos)
    requires |input| >= CellCount && OnBoard(p)
    requires input[Index(p)] != Blank
    requires !(Zero + 1 <= input[Index(p)] <= Zero + 9)
    ensures !Satisfiable(NewModel(input))
  {
    var m := NewModel(input);
    forall a ensures !EvalAll(ApplyConstraints(m), a) {
      ModelMeaning(input, a);
      var g := Solution(m, a);
      assert p in g && g[p] == ClueValue(input[Index(p)]);
    }
  }

  /** Two equal clues in one row, column or cube make the constraints unsatisfiable. */
  lemma DuplicateCluesUnsatisfiable(input: seq<byte>, p: Pos, q: Pos)
    requires |input| >= CellCount && OnBoard(p) && OnBoard(q) && Peers(p, q)
    requires input[Index(p)] != Blank && input[Index(p)] == input[Index(q)]
    ensures !Satisfiable(NewModel(input))
  {
    var m := NewModel(input);
    forall a ensures !EvalAll(ApplyConstraints(m), a) {
      ModelMeaning(input, a);
      var g := Solution(m, a);
      assert p in g && q in g && g[p] == g[q];
    }
  }
}
