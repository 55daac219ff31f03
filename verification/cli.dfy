/**
  The board generator's placement check and write step. A candidate digit may
  go at (x, y) when no other cell of its row, its column or its cube already
  holds it; the generator then writes it into the raw board.

  The cube scan of valid_placement skips a cell when `check_y != x && check_x != x`
  fails. The scans here take the row index the guard compares against as a
  parameter `skipRow`: the code as written passes `x`, the corrected check `y`.
 */
module Cli {
  import opened Grid
  import opened Sudoku
  import opened SudokuProofs

  /** The raw board: 81 bytes, row-major, '.' for an open square. */
  type Board = seq<byte>

  /** The byte at column `x`, row `y`. */
  function At(board: Board, x: nat, y: nat): byte
    requires |board| >= CellCount && x < Size && y < Size
  {
    board[Index(Pos(x, y))]
  }

  /** Some other cell of row `y` holds `val`. */
  predicate RowClash(board: Board, x: nat, y: nat, val: byte)
    requires |board| >= CellCount && y < Size
  {
    exists cx :: 0 <= cx < Size && cx != x && At(board, cx, y) == val
  }

  /** Some other cell of column `x` holds `val`. */
  predicate ColumnClash(board: Board, x: nat, y: nat, val: byte)
    requires |board| >= CellCount && x < Size
  {
    exists cy :: 0 <= cy < Size && cy != y && At(board, x, cy) == val
  }

  /** Some cell of the cube of (x, y) that the guard lets through holds `val`. */
  predicate CubeClash(board: Board, x: nat, y: nat, val: byte, skipRow: nat)
    requires |board| >= CellCount && x < Size && y < Size
  {
    var a := AnchorOf(Pos(x, y));
    exists cy, cx :: a.y <= cy < a.y + 3 && a.x <= cx < a.x + 3 && cy != skipRow && cx != x &&
      At(board, cx, cy) == val
  }

  /** What the three scans accept when the cube guard skips row `skipRow` and column `x`. */
  predicate Accepted(board: Board, x: nat, y: nat, val: byte, skipRow: nat)
    requires |board| >= CellCount && x < Size && y < Size
  {
    !RowClash(board, x, y, val) && !ColumnClash(board, x, y, val) && !CubeClash(board, x, y, val, skipRow)
  }

  /** The row scan: looks at every cell of row `y` except column `x`. */
  method ScanRow(board: Board, x: nat, y: nat, val: byte) returns (clash: bool)
    requires |board| >= CellCount && x < Size && y < Size
    ensures clash <==> RowClash(board, x, y, val)
  {
    for cx := 0 to Size
      invariant forall c :: 0 <= c < cx && c != x ==> At(board, c, y) != val
    {
      if x != cx && board[y * Size + cx] == val {
        assert At(board, cx, y) == val;
        return true;
      }
    }
    return false;
  }

  /** The column scan: looks at every cell of column `x` except row `y`. */
  method ScanColumn(board: Board, x: nat, y: nat, val: byte) returns (clash: bool)
    requires |board| >= CellCount && x < Size && y < Size
    ensures clash <==> ColumnClash(board, x, y, val)
  {
    for cy := 0 to Size
      invariant forall r :: 0 <= r < cy && r != y ==> At(board, x, r) != val
    {
      if y != cy && board[cy * Size + x] == val {
        assert At(board, x, cy) == val;
        return true;
      }
    }
    return false;
  }

  /** The cube scan: the nine cells of the cube of (x, y), row by row, minus those the guard skips. */
  method ScanCube(board: Board, x: nat, y: nat, val: byte, skipRow: nat) returns (clash: bool)
    requires |board| >= CellCount && x < Size && y < Size
    ensures clash <==> CubeClash(board, x, y, val, skipRow)
  {
    var a := AnchorOf(Pos(x, y));
    var top, left := a.y, a.x;
    for cy := top to top + 3
      invariant forall r, c :: top <= r < cy && left <= c < left + 3 && r != skipRow && c != x ==>
        At(board, c, r) != val
    {
      for cx := left to left + 3
        invariant forall r, c ::
          ((top <= r < cy && left <= c < left + 3) || (r == cy && left <= c < cx)) && r != skipRow && c != x ==>
          At(board, c, r) != val
      {
        if cy != skipRow && cx != x && board[cy * Size + cx] == val {
          assert At(board, cx, cy) == val;
          return true;
        }
      }
    }
    return false;
  }

  /** valid_placement as written: the cube guard compares the row index with `x`. */
  method ValidPlacement(board: Board, x: nat, y: nat, val: byte) returns (ok: bool)
    requires |board| >= CellCount && x < Size && y < Size
    ensures ok <==> Accepted(board, x, y, val, x)
    ensures ok <==> forall q :: OnBoard(q) && Peers(Pos(x, y), q) && !BlindSpot(x, y, x, q) ==> board[Index(q)] != val
  {
    AcceptedMeaning(board, x, y, val, x);
    var clash := ScanRow(board, x, y, val);
    if clash {
      return false;
    }
    clash := ScanColumn(board, x, y, val);
    if clash {
      return false;
    }
    clash := ScanCube(board, x, y, val, x);
    if clash {
      return false;
    }
    return true;
  }

  /** valid_placement with the cube guard comparing the row index with `y`. */
  method ValidPlacementCorrected(board: Board, x: nat, y: nat, val: byte) returns (ok: bool)
    requires |board| >= CellCount && x < Size && y < Size
    ensures ok <==> forall q :: OnBoard(q) && Peers(Pos(x, y), q) ==> board[Index(q)] != val
  {
    var clash := ScanRow(board, x, y, val);
    if !clash {
      clash := ScanColumn(board, x, y, val);
    }
    if !clash {
      clash := ScanCube(board, x, y, val, y);
    }
    ok := !clash;
    AcceptedMeaning(board, x, y, val, y);
  }

  /**
    Cells the checks can miss: a peer of (x, y) in its cube, on row `skipRow`,
    outside both row `y` and column `x`.
   */
  predicate BlindSpot(x: nat, y: nat, skipRow: nat, q: Pos) {
    q.y == skipRow && q.y != y && q.x != x
  }

  /**
    The three scans together reject `val` exactly when some peer of (x, y) holds
    it, except for peers in the blind spot of the guard.
   */
  lemma AcceptedMeaning(board: Board, x: nat, y: nat, val: byte, skipRow: nat)
    requires |board| >= CellCount && x < Size && y < Size
    ensures Accepted(board, x, y, val, skipRow) <==>
      forall q :: OnBoard(q) && Peers(Pos(x, y), q) && !BlindSpot(x, y, skipRow, q) ==> board[Index(q)] != val
  {
    if Accepted(board, x, y, val, skipRow) {
      AcceptedSparesPeers(board, x, y, val, skipRow);
    } else {
      ClashHasPeer(board, x, y, val, skipRow);
    }
  }

  /** When the scans accept, no inspected peer holds `val`. */
  lemma AcceptedSparesPeers(board: Board, x: nat, y: nat, val: byte, skipRow: nat)
    requires |board| >= CellCount && x < Size && y < Size
    requires Accepted(board, x, y, val, skipRow)
    ensures forall q :: OnBoard(q) && Peers(Pos(x, y), q) && !BlindSpot(x, y, skipRow, q) ==> board[Index(q)] != val
  {
    var p := Pos(x, y);
    forall q | OnBoard(q) && Peers(p, q) && !BlindSpot(x, y, skipRow, q) ensures board[Index(q)] != val {
      if q.y == y {
        assert At(board, q.x, y) == board[Index(q)];
      } else if q.x == x {
        assert At(board, x, q.y) == board[Index(q)];
      } else {
        assert AnchorOf(q) == AnchorOf(p);
        assert At(board, q.x, q.y) == board[Index(q)];
      }
    }
  }

  /** When a scan finds `val`, it found it at an inspected peer. */
  lemma ClashHasPeer(board: Board, x: nat, y: nat, val: byte, skipRow: nat)
    requires |board| >= CellCount && x < Size && y < Size
    requires !Accepted(board, x, y, val, skipRow)
    ensures exists q :: OnBoard(q) && Peers(Pos(x, y), q) && !BlindSpot(x, y, skipRow, q) && board[Index(q)] == val
  {
    if RowClash(board, x, y, val) {
      var cx :| 0 <= cx < Size && cx != x && At(board, cx, y) == val;
      PeerWitness(board, x, y, val, skipRow, Pos(cx, y));
    } else if ColumnClash(board, x, y, val) {
      var cy :| 0 <= cy < Size && cy != y && At(board, x, cy) == val;
      PeerWitness(board, x, y, val, skipRow, Pos(x, cy));
    } else {
      CubeClashPeer(board, x, y, val, skipRow);
    }
  }

  /** A cell the cube scan finds `val` in is an inspected peer. */
  lemma CubeClashPeer(board: Board, x: nat, y: nat, val: byte, skipRow: nat)
    requires |board| >= CellCount && x < Size && y < Size
    requires CubeClash(board, x, y, val, skipRow)
    ensures exists q :: OnBoard(q) && Peers(Pos(x, y), q) && !BlindSpot(x, y, skipRow, q) && board[Index(q)] == val
  {
    var p := Pos(x, y);
    var a := AnchorOf(p);
    var cy, cx :| a.y <= cy < a.y + 3 && a.x <= cx < a.x + 3 && cy != skipRow && cx != x &&
      At(board, cx, cy) == val;
    var q := Pos(cx, cy);
    SameCube(p, q);
    PeerWitness(board, x, y, val, skipRow, q);
  }

  lemma PeerWitness(board: Board, x: nat, y: nat, val: byte, skipRow: nat, q: Pos)
    requires |board| >= CellCount && OnBoard(q)
    requires Peers(Pos(x, y), q) && !BlindSpot(x, y, skipRow, q) && board[Index(q)] == val
    ensures exists q :: OnBoard(q) && Peers(Pos(x, y), q) && !BlindSpot(x, y, skipRow, q) && board[Index(q)] == val
  {
  }

  /** A position inside the cube anchored at the anchor of `p` has the same anchor. */
  lemma SameCube(p: Pos, q: Pos)
    requires OnBoard(p)
    requires AnchorOf(p).x <= q.x < AnchorOf(p).x + 3 && AnchorOf(p).y <= q.y < AnchorOf(p).y + 3
    ensures OnBoard(q) && AnchorOf(q) == AnchorOf(p)
  {
    var a := AnchorOf(p);
    AnchorListed(p);
    assert q in CubePositions(a);
    AnchorInCube(a, q);
  }

  /** With the corrected guard the blind spot is empty: every peer of (x, y) is inspected. */
  lemma CorrectedChecksEveryPeer(board: Board, x: nat, y: nat, val: byte)
    requires |board| >= CellCount && x < Size && y < Size
    ensures Accepted(board, x, y, val, y) <==>
      forall q :: OnBoard(q) && Peers(Pos(x, y), q) ==> board[Index(q)] != val
  {
    AcceptedMeaning(board, x, y, val, y);
  }

  /**
    The guard as written never inspects the cells of the cube of (x, y) that lie
    on row `x` outside row `y` and column `x`: whatever they hold, the verdict is the same.
   */
  lemma AsWrittenBlindSpot(board: Board, x: nat, y: nat, val: byte, cx: nat, b: byte)
    requires |board| >= CellCount && x < Size && y < Size
    requires BlindSpot(x, y, x, Pos(cx, x)) && OnBoard(Pos(cx, x))
    ensures Accepted(board[Index(Pos(cx, x)) := b], x, y, val, x) == Accepted(board, x, y, val, x)
  {
    var i := Index(Pos(cx, x));
    var board' := board[i := b];
    AcceptedMeaning(board, x, y, val, x);
    AcceptedMeaning(board', x, y, val, x);
    forall q | OnBoard(q) && !BlindSpot(x, y, x, q) ensures board'[Index(q)] == board[Index(q)] {
      IndexInjective(q, Pos(cx, x));
    }
  }

  /** Different board positions have different row-major indices. */
  lemma IndexInjective(p: Pos, q: Pos)
    requires OnBoard(p) && OnBoard(q) && p != q
    ensures Index(p) != Index(q)
  {
    IndexRoundTrip(p);
    IndexRoundTrip(q);
  }

  /** Neither check looks at the cell being placed: its current content never changes the verdict. */
  lemma OwnCellIgnored(board: Board, x: nat, y: nat, val: byte, skipRow: nat, b: byte)
    requires |board| >= CellCount && x < Size && y < Size
    ensures Accepted(board[Index(Pos(x, y)) := b], x, y, val, skipRow) == Accepted(board, x, y, val, skipRow)
  {
    var p := Pos(x, y);
    var board' := board[Index(p) := b];
    AcceptedMeaning(board, x, y, val, skipRow);
    AcceptedMeaning(board', x, y, val, skipRow);
    forall q | OnBoard(q) && Peers(p, q) ensures board'[Index(q)] == board[Index(q)] {
      IndexInjective(q, p);
    }
  }

  /** Whatever the corrected check accepts, the check as written accepts too. */
  lemma AsWrittenAcceptsMore(board: Board, x: nat, y: nat, val: byte)
    requires |board| >= CellCount && x < Size && y < Size
    ensures Accepted(board, x, y, val, y) ==> Accepted(board, x, y, val, x)
  {
    AcceptedMeaning(board, x, y, val, y);
    AcceptedMeaning(board, x, y, val, x);
  }

  /** The 81-byte board of blanks the generator starts from. */
  function EmptyBoard(): (b: Board)
    ensures |b| == CellCount
    ensures forall i :: 0 <= i < |b| ==> b[i] == Blank
  {
    seq(CellCount, _ => Blank)
  }

  /** The write step of the generator: `val` goes to index y * 9 + x and nothing else changes. */
  function WriteClue(board: Board, x: nat, y: nat, val: byte): (r: Board)
    requires |board| >= CellCount && x < Size && y < Size
    ensures |r| == |board|
    ensures At(r, x, y) == val
    ensures forall q :: OnBoard(q) && q != Pos(x, y) ==> r[Index(q)] == board[Index(q)]
  {
    forall q | OnBoard(q) && q != Pos(x, y) ensures Index(q) != Index(Pos(x, y)) {
      IndexInjective(q, Pos(x, y));
    }
    board[y * Size + x := val]
  }

  /** No two peers hold the same clue. */
  ghost predicate ClueConsistent(board: Board)
    requires |board| >= CellCount
  {
    forall p, q :: OnBoard(p) && OnBoard(q) && Peers(p, q) && board[Index(p)] != Blank ==>
      board[Index(p)] != board[Index(q)]
  }

  /** The board of blanks has no clashing clues. */
  lemma EmptyBoardConsistent()
    ensures ClueConsistent(EmptyBoard())
  {
  }

  /** A board whose model is satisfiable has no clashing clues. */
  lemma SatisfiableMeansConsistent(board: Board)
    requires |board| >= CellCount
    ensures Satisfiable(NewModel(board)) ==> ClueConsistent(board)
  {
    if !ClueConsistent(board) {
      var p, q :| OnBoard(p) && OnBoard(q) && Peers(p, q) && board[Index(p)] != Blank &&
        board[Index(p)] == board[Index(q)];
      DuplicateCluesUnsatisfiable(board, p, q);
    }
  }

  /** Placing a value the corrected check accepts keeps the clues of the board consistent. */
  lemma CorrectedPlacementKeepsConsistency(board: Board, x: nat, y: nat, val: byte)
    requires |board| >= CellCount && x < Size && y < Size
    requires ClueConsistent(board) && Accepted(board, x, y, val, y)
    ensures ClueConsistent(WriteClue(board, x, y, val))
  {
    var p := Pos(x, y);
    var r := WriteClue(board, x, y, val);
    CorrectedChecksEveryPeer(board, x, y, val);
    forall s, t | OnBoard(s) && OnBoard(t) && Peers(s, t) && r[Index(s)] != Blank
      ensures r[Index(s)] != r[Index(t)]
    {
      if s == p {
        assert r[Index(t)] == board[Index(t)];
      } else if t == p {
        assert Peers(p, s);
        assert r[Index(s)] == board[Index(s)];
      }
    }
  }

  /**
    One step of generate_board: the candidate is written when the corrected
    check accepts it, and the board is left alone otherwise.
   */
  method PlaceClue(board: Board, x: nat, y: nat, val: byte) returns (placed: bool, r: Board)
    requires |board| >= CellCount && x < Size && y < Size
    ensures |r| == |board|
    ensures placed <==> forall q :: OnBoard(q) && Peers(Pos(x, y), q) ==> board[Index(q)] != val
    ensures placed ==> At(r, x, y) == val
    ensures forall q :: OnBoard(q) && q != Pos(x, y) ==> r[Index(q)] == board[Index(q)]
    ensures !placed ==> r == board
    ensures ClueConsistent(board) ==> ClueConsistent(r)
  {
    placed := ValidPlacementCorrected(board, x, y, val);
    if placed {
      CorrectedChecksEveryPeer(board, x, y, val);
      if ClueConsistent(board) {
        CorrectedPlacementKeepsConsistency(board, x, y, val);
      }
      r := WriteClue(board, x, y, val);
    } else {
      r := board;
    }
  }

  /** A digit byte '5' for the counterexample below. */
  const Five: byte := '5' as int

  /** The board of blanks with a single '5' at column 0, row 1. */
  function LoneFive(): (b: Board)
    ensures |b| == CellCount
  {
    EmptyBoard()[Index(Pos(0, 1)) := Five]
  }

  /**
    The guard as written lets a '5' go to column 1, row 0 although the '5' at
    column 0, row 1 shares its cube: that cell is on row 1 == x, which the guard skips.
    The corrected check refuses the placement.
   */
  lemma AsWrittenAcceptsCubeDuplicate()
    ensures Accepted(LoneFive(), 1, 0, Five, 1)
    ensures !Accepted(LoneFive(), 1, 0, Five, 0)
  {
    var b := LoneFive();
    assert At(b, 0, 1) == Five;
    forall i | 0 <= i < CellCount && i != 9 ensures b[i] == Blank {
    }
  }

  /**
    Writing the placement the guard as written accepts yields a board with two
    '5's in one cube, whose model has no solution.
   */
  lemma AsWrittenPlacementUnsolvable()
    ensures ClueConsistent(LoneFive())
    ensures !ClueConsistent(WriteClue(LoneFive(), 1, 0, Five))
    ensures !Satisfiable(NewModel(WriteClue(LoneFive(), 1, 0, Five)))
  {
    var b := LoneFive();
    forall p, q | OnBoard(p) && OnBoard(q) && Peers(p, q) && b[Index(p)] != Blank
      ensures b[Index(p)] != b[Index(q)]
    {
      IndexInjective(p, q);
    }
    var r := WriteClue(b, 1, 0, Five);
    var p, q := Pos(0, 1), Pos(1, 0);
    assert Peers(p, q);
    assert r[Index(p)] == Five && r[Index(q)] == Five;
    DuplicateCluesUnsatisfiable(r, p, q);
  }

  /**
    generate_board driven by the candidates its random draws produce: `count`
    placements are wanted (generate_board asks for `generate + 1` of them); each
    accepted candidate is written and counts, each rejected one is drawn again.
    Placement uses the corrected check.
   */
  function Generate(board: Board, count: nat, candidates: seq<(nat, nat, byte)>): (r: Board)
    requires |board| >= CellCount
    requires forall k :: 0 <= k < |candidates| ==> candidates[k].0 < Size && candidates[k].1 < Size
    ensures |r| == |board|
    decreases |candidates|
  {
    if count == 0 || candidates == [] then board
    else
      var (x, y, val) := candidates[0];
      if Accepted(board, x, y, val, y) then Generate(WriteClue(board, x, y, val), count - 1, candidates[1..])
      else Generate(board, count, candidates[1..])
  }

  /** Every board the corrected generator produces from a consistent board is consistent. */
  lemma {:induction false} GenerateKeepsConsistency(board: Board, count: nat, candidates: seq<(nat, nat, byte)>)
    requires |board| >= CellCount && ClueConsistent(board)
    requires forall k :: 0 <= k < |candidates| ==> candidates[k].0 < Size && candidates[k].1 < Size
    ensures ClueConsistent(Generate(board, count, candidates))
    decreases |candidates|
  {
    if count != 0 && candidates != [] {
      var (x, y, val) := candidates[0];
      if Accepted(board, x, y, val, y) {
        CorrectedPlacementKeepsConsistency(board, x, y, val);
        GenerateKeepsConsistency(WriteClue(board, x, y, val), count - 1, candidates[1..]);
      } else {
        GenerateKeepsConsistency(board, count, candidates[1..]);
      }
    }
  }

  /** Every board generated from the board of blanks is consistent. */
  lemma GeneratedBoardConsistent(count: nat, candidates: seq<(nat, nat, byte)>)
    requires forall k :: 0 <= k < |candidates| ==> candidates[k].0 < Size && candidates[k].1 < Size
    ensures ClueConsistent(Generate(EmptyBoard(), count, candidates))
  {
    EmptyBoardConsistent();
    GenerateKeepsConsistency(EmptyBoard(), count, candidates);
  }

  /**
    generate_board exactly as written: the loop of Generate, but each draw is
    judged by valid_placement with its cube guard as written.
   */
  function GenerateAsWritten(board: Board, count: nat, candidates: seq<(nat, nat, byte)>): (r: Board)
    requires |board| >= CellCount
    requires forall k :: 0 <= k < |candidates| ==> candidates[k].0 < Size && candidates[k].1 < Size
    ensures |r| == |board|
    decreases |candidates|
  {
    if count == 0 || candidates == [] then board
    else
      var (x, y, val) := candidates[0];
      if Accepted(board, x, y, val, x) then GenerateAsWritten(WriteClue(board, x, y, val), count - 1, candidates[1..])
      else GenerateAsWritten(board, count, candidates[1..])
  }

  /** Two draws of a '5': column 0, row 1, then column 1, row 0, in the same cube. */
  const FiveDraws: seq<(nat, nat, byte)> := [(0, 1, Five), (1, 0, Five)]

  /** On the board of blanks both checks accept the first draw, and writing it gives LoneFive. */
  lemma FirstFiveAccepted()
    ensures Accepted(EmptyBoard(), 0, 1, Five, 1) && Accepted(EmptyBoard(), 0, 1, Five, 0)
    ensures WriteClue(EmptyBoard(), 0, 1, Five) == LoneFive()
  {
  }

  /**
    The two generators part on FiveDraws: generate_board as written writes both
    '5's into the top-left cube and ends on a board whose model has no solution,
    while the corrected generator refuses the second draw.
   */
  lemma AsWrittenGenerateDiverges()
    ensures Generate(EmptyBoard(), 2, FiveDraws) == LoneFive()
    ensures GenerateAsWritten(EmptyBoard(), 2, FiveDraws) == WriteClue(LoneFive(), 1, 0, Five)
    ensures !ClueConsistent(GenerateAsWritten(EmptyBoard(), 2, FiveDraws))
    ensures !Satisfiable(NewModel(GenerateAsWritten(EmptyBoard(), 2, FiveDraws)))
  {
    FirstFiveAccepted();
    AsWrittenAcceptsCubeDuplicate();
    AsWrittenPlacementUnsolvable();
    var rest := FiveDraws[1..];
    assert rest[1..] == [];
    assert Generate(EmptyBoard(), 2, FiveDraws) == Generate(LoneFive(), 1, rest);
    assert Generate(LoneFive(), 1, rest) == Generate(LoneFive(), 1, []);
    assert GenerateAsWritten(EmptyBoard(), 2, FiveDraws) == GenerateAsWritten(LoneFive(), 1, rest);
    assert GenerateAsWritten(LoneFive(), 1, rest) == GenerateAsWritten(WriteClue(LoneFive(), 1, 0, Five), 0, []);
  }
}
