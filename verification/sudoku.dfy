/**
  The constraint-model builder: a raw 81-byte board becomes a position-to-cell
  map, and the map becomes the list of formulas asserted to the solver (a
  range constraint per cell and a uniqueness constraint per row, column and cube).
 */
module Sudoku {
  import opened Seqs
  import opened Grid
  import opened Formulas

  /** One square of the board: its integer term and whether the input fixed it. */
  datatype Cell = Cell(value: Term, fromInput: bool) {
    /** True for a clue of the input board, false for a square the solver fills in. */
    predicate IsSolution() {
      fromInput
    }
  }

  /** The board: a cell for each position. */
  type Model = map<Pos, Cell>

  /** A model with a cell at every board position and nowhere else. */
  ghost predicate Complete(m: Model) {
    forall p :: p in m <==> OnBoard(p)
  }

  function DigitChar(d: nat): char
    requires d < 10
  {
    (Zero + d) as char
  }

  /** The decimal notation of `n`, as `format!("{}", n)` writes it. */
  function DecimalString(n: nat): (s: string)
    ensures 1 <= |s|
    ensures forall k :: 0 <= k < |s| ==> '0' <= s[k] <= '9'
    decreases n
  {
    if n < 10 then [DigitChar(n)] else DecimalString(n / 10) + [DigitChar(n % 10)]
  }

  /** The name of the free variable of the cell at `p`: `value_x{x}_y{y}`. */
  function VarName(p: Pos): string {
    "value_x" + DecimalString(p.x) + "_y" + DecimalString(p.y)
  }

  /** On the board, different positions give different variable names. */
  lemma VarNameInjective(p: Pos, q: Pos)
    requires OnBoard(p) && OnBoard(q) && p != q
    ensures VarName(p) != VarName(q)
  {
    var np, nq := VarName(p), VarName(q);
    assert np[7] == DigitChar(p.x) && np[10] == DigitChar(p.y);
    assert nq[7] == DigitChar(q.x) && nq[10] == DigitChar(q.y);
    if p.x != q.x {
      assert np[7] != nq[7];
    } else {
      assert np[10] != nq[10];
    }
  }

  /**
    An open square: a fresh variable named after its position. Its value is
    whatever the assignment binds that variable to.
   */
  function DefaultCell(p: Pos): (c: Cell)
    ensures !c.IsSolution()
    ensures forall a :: Value(c.value, a) == a(VarName(p))
  {
    Cell(Var(VarName(p)), false)
  }

  /** A square fixed by the input: its value is `v` under every assignment. */
  function FromInputCell(v: int): (c: Cell)
    ensures c.IsSolution()
    ensures forall a :: Value(c.value, a) == v
  {
    Cell(Lit(v), true)
  }

  /** The number a clue byte stands for: the byte minus '0', with no check that it is a digit. */
  function ClueValue(b: byte): int {
    b - Zero
  }

  /** The cell the builder makes for position `p` of the raw board. */
  function CellFor(input: seq<byte>, p: Pos): Cell
    requires OnBoard(p) && |input| >= CellCount
  {
    var b := input[Index(p)];
    if b == Blank then DefaultCell(p) else FromInputCell(ClueValue(b))
  }

  /**
    Model::new: one cell per board position. A blank byte gives a free cell; any
    other byte gives a clue whose value is the byte minus '0'.
   */
  function NewModel(input: seq<byte>): (m: Model)
    requires |input| >= CellCount
    ensures Complete(m) && |m| == CellCount
    ensures forall p :: p in m ==> (m[p].IsSolution() <==> input[Index(p)] != Blank)
    ensures forall p, a :: p in m && input[Index(p)] != Blank ==>
      Value(m[p].value, a) == ClueValue(input[Index(p)])
    ensures forall p, a :: p in m && input[Index(p)] == Blank ==>
      Value(m[p].value, a) == a(VarName(p))
  {
    var all := AllPositions();
    AllPositionsCount();
    var m := map p | p in all :: CellFor(input, p);
    assert m.Keys == all;
    m
  }

  /** Distinct free cells of a model get distinct variables. */
  lemma FreeCellsHaveDistinctVariables(input: seq<byte>, p: Pos, q: Pos)
    requires |input| >= CellCount
    requires p in NewModel(input) && q in NewModel(input) && p != q
    requires !NewModel(input)[p].IsSolution() && !NewModel(input)[q].IsSolution()
    ensures NewModel(input)[p].value != NewModel(input)[q].value
  {
    var m := NewModel(input);
    VarNameInjective(p, q);
    var a: Assignment := n => if n == VarName(p) then 1 else 0;
    assert Value(m[p].value, a) == 1 && Value(m[q].value, a) == 0;
  }

  /** Cell::apply_constraints: the value of the cell lies in [1, 9]. */
  function CellConstraints(c: Cell): (fs: seq<Formula>)
    ensures |fs| == 2
    ensures forall a :: EvalAll(fs, a) <==> 1 <= Value(c.value, a) <= 9
  {
    var fs := [Ge(c.value, Lit(1)), Le(c.value, Lit(9))];
    assert forall a :: EvalAll(fs, a) <==> Eval(fs[0], a) && Eval(fs[1], a);
    fs
  }

  /** The range constraints of the cells at `ps`, cell after cell. */
  function CellsConstraints(m: Model, ps: seq<Pos>): (fs: seq<Formula>)
    requires forall k :: 0 <= k < |ps| ==> ps[k] in m
    ensures |fs| == 2 * |ps|
    decreases |ps|
  {
    if ps == [] then [] else CellConstraints(m[ps[0]]) + CellsConstraints(m, ps[1..])
  }

  /** The range constraints of every cell, in row-major order. */
  function DomainConstraints(m: Model): (fs: seq<Formula>)
    requires Complete(m)
    ensures |fs| == 2 * CellCount
  {
    var ps := RowMajor();
    assert forall k :: 0 <= k < |ps| ==> ps[k] in m;
    CellsConstraints(m, ps)
  }

  /** The terms of the cells at `ps`, in order. */
  function Select(m: Model, ps: seq<Pos>): (ts: seq<Term>)
    requires forall k :: 0 <= k < |ps| ==> ps[k] in m
    ensures |ts| == |ps|
    ensures forall k :: 0 <= k < |ps| ==> ts[k] == m[ps[k]].value
  {
    seq(|ps|, k requires 0 <= k < |ps| => m[ps[k]].value)
  }

  /** The 9 cells of row `y`, scanned left to right. */
  function GetRow(m: Model, y: nat): (ts: seq<Term>)
    requires Complete(m) && y < Size
    ensures |ts| == Size
    ensures forall x :: 0 <= x < Size ==> ts[x] == m[Pos(x, y)].value
  {
    Select(m, RowPositions(y))
  }

  /** The 9 cells of column `x`, scanned top to bottom. */
  function GetColumn(m: Model, x: nat): (ts: seq<Term>)
    requires Complete(m) && x < Size
    ensures |ts| == Size
    ensures forall y :: 0 <= y < Size ==> ts[y] == m[Pos(x, y)].value
  {
    Select(m, ColumnPositions(x))
  }

  /** The 9 cells of the 3x3 cube whose top-left corner is `a`, row by row. */
  function GetCube(m: Model, a: Pos): (ts: seq<Term>)
    requires Complete(m) && a.x + 3 <= Size && a.y + 3 <= Size
    ensures |ts| == Size
    ensures forall k :: 0 <= k < Size ==> ts[k] == m[CubeCell(a, k)].value
  {
    Select(m, CubePositions(a))
  }

  /** One uniqueness constraint per row, top to bottom. */
  function ConstrainRows(m: Model): (fs: seq<Formula>)
    requires Complete(m)
    ensures |fs| == Size
    ensures forall i :: 0 <= i < Size ==> fs[i].And? && |fs[i].conjuncts| == 36
  {
    seq(Size, y requires 0 <= y < Size => ConstrainDistinctValues(GetRow(m, y)))
  }

  /** One uniqueness constraint per column, left to right. */
  function ConstrainCols(m: Model): (fs: seq<Formula>)
    requires Complete(m)
    ensures |fs| == Size
    ensures forall i :: 0 <= i < Size ==> fs[i].And? && |fs[i].conjuncts| == 36
  {
    seq(Size, x requires 0 <= x < Size => ConstrainDistinctValues(GetColumn(m, x)))
  }

  /** One uniqueness constraint per cube, in the order of the anchor list. */
  function ConstrainCubes(m: Model): (fs: seq<Formula>)
    requires Complete(m)
    ensures |fs| == Size
    ensures forall i :: 0 <= i < Size ==> fs[i].And? && |fs[i].conjuncts| == 36
  {
    seq(Size, i requires 0 <= i < Size => ConstrainDistinctValues(GetCube(m, CubeAnchors[i])))
  }

  /**
    Model::apply_constraints: everything asserted to the solver. The range
    constraints come first, then the rows, the columns and the cubes.
   */
  function ApplyConstraints(m: Model): (fs: seq<Formula>)
    requires Complete(m)
    ensures |fs| == 2 * CellCount + 3 * Size
  {
    DomainConstraints(m) + (ConstrainRows(m) + ConstrainCols(m) + ConstrainCubes(m))
  }

  /** Every formula of `fs` is a conjunction of `n` clauses. */
  predicate ConjunctionsOf(fs: seq<Formula>, n: nat) {
    forall i :: 0 <= i < |fs| ==> fs[i].And? && |fs[i].conjuncts| == n
  }

  lemma ConjunctionsAppend(fs: seq<Formula>, gs: seq<Formula>, n: nat)
    requires ConjunctionsOf(fs, n) && ConjunctionsOf(gs, n)
    ensures ConjunctionsOf(fs + gs, n)
  {
    forall i | 0 <= i < |fs + gs| ensures (fs + gs)[i].And? && |(fs + gs)[i].conjuncts| == n {
      if i >= |fs| {
        assert (fs + gs)[i] == gs[i - |fs|];
      }
    }
  }

  lemma ConjunctionsSuffix(fs: seq<Formula>, gs: seq<Formula>, n: nat)
    requires ConjunctionsOf(gs, n)
    ensures forall i :: |fs| <= i < |fs + gs| ==> (fs + gs)[i].And? && |(fs + gs)[i].conjuncts| == n
  {
    forall i | |fs| <= i < |fs + gs| ensures (fs + gs)[i].And? && |(fs + gs)[i].conjuncts| == n {
      assert (fs + gs)[i] == gs[i - |fs|];
    }
  }

  /**
    The uniqueness part of the asserted formulas is 27 conjunctions of 36 pair
    clauses each, 972 clauses in all.
   */
  lemma UniquenessClauseCount(m: Model)
    requires Complete(m)
    ensures forall i :: 2 * CellCount <= i < |ApplyConstraints(m)| ==>
      ApplyConstraints(m)[i].And? && |ApplyConstraints(m)[i].conjuncts| == 36
  {
    var rows, cols, cubes := ConstrainRows(m), ConstrainCols(m), ConstrainCubes(m);
    ConjunctionsAppend(rows, cols, 36);
    ConjunctionsAppend(rows + cols, cubes, 36);
    ConjunctionsSuffix(DomainConstraints(m), rows + cols + cubes, 36);
  }

  /** An assignment satisfies the model when it satisfies every asserted formula. */
  ghost predicate Satisfiable(m: Model)
    requires Complete(m)
  {
    exists a :: EvalAll(ApplyConstraints(m), a)
  }

  /** Every clue of the raw board is the value of its position in `g`. */
  ghost predicate AgreesWithClues(input: seq<byte>, g: map<Pos, int>)
    requires |input| >= CellCount
  {
    forall p :: p in g && OnBoard(p) && input[Index(p)] != Blank ==> g[p] == ClueValue(input[Index(p)])
  }

  /** VarName is injective on the board. */
  lemma VarNamesInjective()
    ensures forall p, q :: OnBoard(p) && OnBoard(q) && VarName(p) == VarName(q) ==> p == q
  {
    forall p, q | OnBoard(p) && OnBoard(q) && p != q ensures VarName(p) != VarName(q) {
      VarNameInjective(p, q);
    }
  }

  /**
    The assignment that binds the variable of each position of `g` to the value
    `g` holds there (and every other name to 0).
   */
  function AssignmentFor(g: map<Pos, int>): (a: Assignment)
    requires forall p :: p in g ==> OnBoard(p)
    ensures forall p :: p in g ==> a(VarName(p)) == g[p]
  {
    VarNamesInjective();
    var byName := map p | p in g :: VarName(p) := g[p];
    n => if n in byName then byName[n] else 0
  }

  /** The solved board: the value of every cell under the assignment. */
  function Solution(m: Model, a: Assignment): (g: map<Pos, int>)
    ensures g.Keys == m.Keys
  {
    map p | p in m :: Value(m[p].value, a)
  }
}
