/**
  Board representation: positions on the 9x9 board, the row-major index of a
  position in the raw 81-byte input, the rows, columns and 3x3 cubes as
  sequences of positions in scan order, and what a solved grid is.
 */
module Grid {
  import opened Seqs

  /** Side length of the board (BOARD_SIZE). */
  const Size: nat := 9
  /** Number of positions on the board. */
  const CellCount: nat := 81

  /** An unsigned 8-bit value, one symbol of the raw board. */
  type byte = b: int | 0 <= b < 256

  /** The blank marker of the raw board, '.'. */
  const Blank: byte := '.' as int
  /** The digit '0'; a clue byte `b` stands for the number `b - Zero`. */
  const Zero: byte := '0' as int

  /** A board position: column `x` and row `y`. */
  datatype Pos = Pos(x: nat, y: nat)

  predicate OnBoard(p: Pos) {
    p.x < Size && p.y < Size
  }

  /** Row-major index of `p` in the raw board. */
  function Index(p: Pos): (i: nat)
    ensures OnBoard(p) ==> i < CellCount
  {
    p.y * 9 + p.x
  }

  /** The position whose row-major index is `i`: nine indices per row. */
  function PosAt(i: nat): (p: Pos)
    ensures p.x < Size && Index(p) == i
    ensures i < CellCount ==> OnBoard(p)
    decreases i
  {
    if i < Size then Pos(i, 0) else var p := PosAt(i - Size); Pos(p.x, p.y + 1)
  }

  /** Index and PosAt are inverse on the board. */
  lemma IndexRoundTrip(p: Pos)
    requires OnBoard(p)
    ensures PosAt(Index(p)) == p
  {
  }

  /** Every position of the board, each once. */
  function AllPositions(): (s: set<Pos>)
    ensures forall p :: p in s <==> OnBoard(p)
  {
    set x: nat, y: nat | x < Size && y < Size :: Pos(x, y)
  }

  /** The positions in the order the model builder visits them: rows top to bottom, each left to right. */
  function RowMajor(): (ps: seq<Pos>)
    ensures |ps| == CellCount
    ensures forall i :: 0 <= i < CellCount ==> OnBoard(ps[i]) && Index(ps[i]) == i
  {
    seq(CellCount, i requires 0 <= i => PosAt(i))
  }

  /** The row-major scan visits every board position exactly once. */
  lemma RowMajorCoversBoard()
    ensures Distinct(RowMajor())
    ensures Elements(RowMajor()) == AllPositions()
  {
    var ps := RowMajor();
    forall p | OnBoard(p) ensures p in ps {
      IndexRoundTrip(p);
      assert ps[Index(p)] == p;
    }
  }

  /** The board has exactly 81 positions. */
  lemma AllPositionsCount()
    ensures |AllPositions()| == CellCount
  {
    RowMajorCoversBoard();
    DistinctCardinality(RowMajor());
  }

  /** Row `y`, left to right. */
  function RowPositions(y: nat): (ps: seq<Pos>)
    ensures |ps| == Size && Distinct(ps)
    ensures forall x :: 0 <= x < Size ==> ps[x] == Pos(x, y)
    ensures forall p :: p in ps <==> p.x < Size && p.y == y
  {
    var ps := seq(Size, x requires 0 <= x => Pos(x, y));
    assert forall p: Pos | p.x < Size && p.y == y :: ps[p.x] == p;
    ps
  }

  /** Column `x`, top to bottom. */
  function ColumnPositions(x: nat): (ps: seq<Pos>)
    ensures |ps| == Size && Distinct(ps)
    ensures forall y :: 0 <= y < Size ==> ps[y] == Pos(x, y)
    ensures forall p :: p in ps <==> p.x == x && p.y < Size
  {
    var ps := seq(Size, y requires 0 <= y => Pos(x, y));
    assert forall p: Pos | p.x == x && p.y < Size :: ps[p.y] == p;
    ps
  }

  /** The `k`-th position of the scan of the cube at `a`: three cells per row, rows top to bottom. */
  function CubeCell(a: Pos, k: nat): (p: Pos)
    requires k < Size
    ensures a.x <= p.x < a.x + 3 && a.y <= p.y < a.y + 3
  {
    if k < 3 then Pos(a.x + k, a.y)
    else if k < 6 then Pos(a.x + (k - 3), a.y + 1)
    else Pos(a.x + (k - 6), a.y + 2)
  }

  /** The 3x3 cube whose top-left corner is `a`, row by row, each left to right. */
  function CubePositions(a: Pos): (ps: seq<Pos>)
    ensures |ps| == Size && Distinct(ps)
    ensures forall k :: 0 <= k < Size ==> ps[k] == CubeCell(a, k)
    ensures forall p :: p in ps <==> a.x <= p.x < a.x + 3 && a.y <= p.y < a.y + 3
  {
    var ps := seq(Size, k requires 0 <= k < Size => CubeCell(a, k));
    forall i, j | 0 <= i < Size && 0 <= j < Size && i != j ensures ps[i] != ps[j] {
      CubeCellInjective(a, i, j);
    }
    forall p: Pos | a.x <= p.x < a.x + 3 && a.y <= p.y < a.y + 3 ensures p in ps {
      var k := CubeCellOnto(a, p);
      assert ps[k] == p;
    }
    ps
  }

  /** Different scan steps visit different cells of a cube. */
  lemma CubeCellInjective(a: Pos, i: nat, j: nat)
    requires i < Size && j < Size && i != j
    ensures CubeCell(a, i) != CubeCell(a, j)
  {
  }

  /** Every cell of a cube is visited by its scan. */
  lemma CubeCellOnto(a: Pos, p: Pos) returns (k: nat)
    requires a.x <= p.x < a.x + 3 && a.y <= p.y < a.y + 3
    ensures k < Size && CubeCell(a, k) == p
  {
    k := 3 * (p.y - a.y) + (p.x - a.x);
  }

  /** The top-left corners of the nine cubes, in the order the model builder uses them. */
  const CubeAnchors: seq<Pos> := [
    Pos(0, 0), Pos(0, 3), Pos(0, 6),
    Pos(3, 0), Pos(6, 0), Pos(3, 3),
    Pos(3, 6), Pos(6, 3), Pos(6, 6)
  ]

  /**
    The first row (or column) of the band holding row (or column) `v`: `v`
    rounded down to a multiple of three, written out for the board's range.
   */
  function CubeStart(v: nat): (s: nat)
    ensures s <= v < s + 3
    ensures v < Size ==> s + 3 <= Size && (s == 0 || s == 3 || s == 6)
  {
    if v < 3 then 0 else if v < 6 then 3 else if v < 9 then 6 else (v / 3) * 3
  }

  /** CubeStart is the `(v / 3) * 3` of the placement check. */
  lemma CubeStartRoundsDown(v: nat)
    ensures CubeStart(v) == (v / 3) * 3
  {
  }

  /** The top-left corner of the cube holding `p`. */
  function AnchorOf(p: Pos): (a: Pos)
    ensures a.x <= p.x < a.x + 3 && a.y <= p.y < a.y + 3
    ensures OnBoard(p) ==> a.x + 3 <= Size && a.y + 3 <= Size
  {
    Pos(CubeStart(p.x), CubeStart(p.y))
  }

  /** The anchor of a board position is one of the nine listed anchors. */
  lemma AnchorListed(p: Pos)
    requires OnBoard(p)
    ensures AnchorOf(p) in CubeAnchors
  {
    var a := AnchorOf(p);
    assert a.x in {0, 3, 6} && a.y in {0, 3, 6};
  }

  /** The nine cubes partition the board: every position lies in exactly one of them. */
  lemma CubesPartition()
    ensures |CubeAnchors| == Size && Distinct(CubeAnchors)
    ensures forall i, p :: 0 <= i < Size && p in CubePositions(CubeAnchors[i]) ==>
      OnBoard(p) && AnchorOf(p) == CubeAnchors[i]
    ensures forall p :: OnBoard(p) ==> exists i :: 0 <= i < Size && p in CubePositions(CubeAnchors[i])
    ensures forall i, j, p ::
      (0 <= i < Size && 0 <= j < Size && p in CubePositions(CubeAnchors[i]) && p in CubePositions(CubeAnchors[j]))
      ==> i == j
  {
    AnchorsDistinct();
    CubesWithinBoard();
    CubesCoverBoard();
    CubesDisjoint();
  }

  lemma CubesWithinBoard()
    ensures forall i, p :: 0 <= i < Size && p in CubePositions(CubeAnchors[i]) ==>
      OnBoard(p) && AnchorOf(p) == CubeAnchors[i]
  {
    forall i, p | 0 <= i < Size && p in CubePositions(CubeAnchors[i])
      ensures OnBoard(p) && AnchorOf(p) == CubeAnchors[i]
    {
      AnchorInCubeAt(i, p);
    }
  }

  lemma CubesCoverBoard()
    ensures forall p :: OnBoard(p) ==> exists i :: 0 <= i < Size && p in CubePositions(CubeAnchors[i])
  {
    forall p | OnBoard(p)
      ensures exists i :: 0 <= i < Size && p in CubePositions(CubeAnchors[i])
    {
      var a := AnchorOf(p);
      AnchorListed(p);
      var i :| 0 <= i < Size && CubeAnchors[i] == a;
      assert p in CubePositions(CubeAnchors[i]);
    }
  }

  lemma CubesDisjoint()
    ensures forall i, j, p ::
      (0 <= i < Size && 0 <= j < Size && p in CubePositions(CubeAnchors[i]) && p in CubePositions(CubeAnchors[j]))
      ==> i == j
  {
    forall i, j, p | 0 <= i < Size && 0 <= j < Size &&
      p in CubePositions(CubeAnchors[i]) && p in CubePositions(CubeAnchors[j])
      ensures i == j
    {
      AnchorInCubeAt(i, p);
      AnchorInCubeAt(j, p);
      SameAnchorSameIndex(i, j);
    }
  }

  /** The anchor list holds nine different corners. */
  lemma AnchorsDistinct()
    ensures |CubeAnchors| == Size && Distinct(CubeAnchors)
  {
  }

  lemma SameAnchorSameIndex(i: nat, j: nat)
    requires i < Size && j < Size && CubeAnchors[i] == CubeAnchors[j]
    ensures i == j
  {
    AnchorsDistinct();
  }

  /** Inside the cube anchored at `a`, every position has `a` as its anchor. */
  lemma AnchorInCube(a: Pos, p: Pos)
    requires a in CubeAnchors && p in CubePositions(a)
    ensures OnBoard(p) && AnchorOf(p) == a
  {
    assert a.x in {0, 3, 6} && a.y in {0, 3, 6};
    AnchorUnique(a.x, p.x);
    AnchorUnique(a.y, p.y);
  }

  /** Inside the `i`-th cube, every position has the `i`-th anchor. */
  lemma AnchorInCubeAt(i: nat, p: Pos)
    requires i < Size && p in CubePositions(CubeAnchors[i])
    ensures OnBoard(p) && AnchorOf(p) == CubeAnchors[i]
  {
    var a := CubeAnchors[i];
    assert a in CubeAnchors;
    AnchorInCube(a, p);
  }

  /** A multiple of three at most two below `v` is where the band of `v` starts. */
  lemma AnchorUnique(b: nat, v: nat)
    requires b in {0, 3, 6}
    requires b <= v < b + 3
    ensures CubeStart(v) == b
  {
  }

  /** For a board position, membership in the cube of an anchor is the same as having that anchor. */
  lemma CubeMembership(a: Pos, p: Pos)
    requires a in CubeAnchors && OnBoard(p)
    ensures p in CubePositions(a) <==> AnchorOf(p) == a
  {
    if p in CubePositions(a) {
      AnchorInCube(a, p);
    }
  }

  /** The cube of an anchor holds exactly the board positions with that anchor. */
  lemma CubeMembershipAll(a: Pos)
    requires a in CubeAnchors
    ensures forall p :: OnBoard(p) ==> (p in CubePositions(a) <==> AnchorOf(p) == a)
  {
    forall p | OnBoard(p) ensures p in CubePositions(a) <==> AnchorOf(p) == a {
      CubeMembership(a, p);
    }
  }

  /** Two different positions that share a row, a column or a cube. */
  predicate Peers(p: Pos, q: Pos) {
    p != q && (p.y == q.y || p.x == q.x || AnchorOf(p) == AnchorOf(q))
  }

  /** Every value of the grid is a digit in [1, 9]. */
  ghost predicate InRange(g: map<Pos, int>) {
    forall p :: p in g ==> 1 <= g[p] <= 9
  }

  /** No two positions of one row hold the same value. */
  ghost predicate RowsDistinct(g: map<Pos, int>) {
    forall p, q :: p in g && q in g && p != q && p.y == q.y ==> g[p] != g[q]
  }

  /** No two positions of one column hold the same value. */
  ghost predicate ColumnsDistinct(g: map<Pos, int>) {
    forall p, q :: p in g && q in g && p != q && p.x == q.x ==> g[p] != g[q]
  }

  /** No two positions of one cube hold the same value. */
  ghost predicate CubesDistinct(g: map<Pos, int>) {
    forall p, q :: p in g && q in g && p != q && AnchorOf(p) == AnchorOf(q) ==> g[p] != g[q]
  }

  /**
    A completed Sudoku: a digit in [1, 9] at every board position, and no two
    peers holding the same digit.
   */
  ghost predicate IsSolvedGrid(g: map<Pos, int>) {
    && g.Keys == AllPositions()
    && InRange(g)
    && (forall p, q :: p in g && q in g && Peers(p, q) ==> g[p] != g[q])
  }

  /** A solved grid is one whose rows, columns and cubes each hold distinct digits. */
  lemma SolvedGridByGroups(g: map<Pos, int>)
    ensures IsSolvedGrid(g) <==>
      g.Keys == AllPositions() && InRange(g) && RowsDistinct(g) && ColumnsDistinct(g) && CubesDistinct(g)
  {
  }
}
