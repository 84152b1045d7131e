/** Properties of the board model: what clearLines keeps and in which
    order, how many rows one lock can fill, and how merge and collision
    relate (src/utils/gameUtils.ts). */
module BoardLemmas {
  import opened GameTypes
  import opened GameUtils

  // ---------------------------------------------------------------------
  // Remaining and CountFull
  // ---------------------------------------------------------------------

  /** A board without full rows survives a clear whole. */
  lemma {:induction false} RemainingOfNoFullRow(rows: seq<Row>)
    requires NoFullRow(rows)
    ensures Remaining(rows) == rows
    ensures CountFull(rows) == 0
  {
    if rows != [] {
      assert NoFullRow(rows[1..]) by {
        forall y | 0 <= y < |rows[1..]| ensures !IsFull(rows[1..][y]) {
          assert rows[1..][y] == rows[y + 1];
        }
      }
      RemainingOfNoFullRow(rows[1..]);
      assert [rows[0]] + rows[1..] == rows;
    }
  }

  /** CountFull counts full rows: it is zero exactly when no row is full. */
  lemma {:induction false} CountFullZero(rows: seq<Row>)
    ensures CountFull(rows) == 0 <==> NoFullRow(rows)
  {
    if NoFullRow(rows) {
      RemainingOfNoFullRow(rows);
    } else if rows != [] {
      CountFullZero(rows[1..]);
      if !IsFull(rows[0]) {
        var y :| 0 <= y < |rows| && IsFull(rows[y]);
        assert rows[1..][y - 1] == rows[y];
      }
    }
  }

  /** Clearing works row by row: it distributes over concatenation. */
  lemma {:induction false} RemainingAppend(a: seq<Row>, b: seq<Row>)
    ensures Remaining(a + b) == Remaining(a) + Remaining(b)
    ensures CountFull(a + b) == CountFull(a) + CountFull(b)
  {
    if a == [] {
      assert a + b == b;
    } else {
      assert (a + b)[0] == a[0];
      assert (a + b)[1..] == a[1..] + b;
      RemainingAppend(a[1..], b);
    }
  }

  /** Every row is full. */
  predicate AllFull(rows: seq<Row>) {
    forall y :: 0 <= y < |rows| ==> IsFull(rows[y])
  }

  lemma {:induction false} RemainingOfAllFull(rows: seq<Row>)
    requires AllFull(rows)
    ensures Remaining(rows) == []
    ensures CountFull(rows) == |rows|
  {
    if rows != [] {
      assert AllFull(rows[1..]) by {
        forall y | 0 <= y < |rows[1..]| ensures IsFull(rows[1..][y]) {
          assert rows[1..][y] == rows[y + 1];
        }
      }
      RemainingOfAllFull(rows[1..]);
    }
  }

  /** The indices of the non-full rows at or after `from`, ascending. */
  function NonFullIndices(rows: seq<Row>, from: nat): (idx: seq<int>)
    requires from <= |rows|
    ensures forall j :: 0 <= j < |idx| ==> from <= idx[j] < |rows| && !IsFull(rows[idx[j]])
    ensures forall j, k :: 0 <= j < k < |idx| ==> idx[j] < idx[k]
    ensures forall i :: from <= i < |rows| && !IsFull(rows[i]) ==> i in idx
    decreases |rows| - from
  {
    if from == |rows| then []
    else (if IsFull(rows[from]) then [] else [from]) + NonFullIndices(rows, from + 1)
  }

  /** Remaining(rows[from..]) is the sequence of rows at NonFullIndices. */
  lemma {:induction false} RemainingInOrder(rows: seq<Row>, from: nat)
    requires from <= |rows|
    ensures |NonFullIndices(rows, from)| == |Remaining(rows[from..])|
    ensures forall j :: 0 <= j < |NonFullIndices(rows, from)| ==>
              Remaining(rows[from..])[j] == rows[NonFullIndices(rows, from)[j]]
    decreases |rows| - from
  {
    if from < |rows| {
      RemainingInOrder(rows, from + 1);
      var tail := rows[from..];
      var idx := NonFullIndices(rows, from + 1);
      var rest := Remaining(rows[from + 1..]);
      assert tail[0] == rows[from];
      assert tail[1..] == rows[from + 1..];
      if IsFull(rows[from]) {
        assert Remaining(tail) == rest;
        assert NonFullIndices(rows, from) == idx;
      } else {
        assert Remaining(tail) == [rows[from]] + rest;
        assert NonFullIndices(rows, from) == [from] + idx;
        forall j | 0 < j < |idx| + 1
          ensures ([rows[from]] + rest)[j] == rows[([from] + idx)[j]]
        {
          assert ([rows[from]] + rest)[j] == rest[j - 1];
          assert ([from] + idx)[j] == idx[j - 1];
        }
      }
    }
  }

  // ---------------------------------------------------------------------
  // clearLines
  // ---------------------------------------------------------------------

  /** Below the padding, row j of the cleared board is the board's row
      NonFullIndices(board, 0)[j]: the non-full rows, each once, in their
      original top-to-bottom order. */
  lemma ClearLinesPreservesRowOrder(board: Board)
    requires IsBoard(board)
    ensures ClearLines(board).linesCleared + |NonFullIndices(board, 0)| == BoardHeight
    ensures forall j :: 0 <= j < |NonFullIndices(board, 0)| ==>
              ClearLines(board).board[ClearLines(board).linesCleared + j] == board[NonFullIndices(board, 0)[j]]
  {
    RemainingInOrder(board, 0);
    assert board[0..] == board;
    var r := ClearLines(board);
    var idx := NonFullIndices(board, 0);
    var kept := Remaining(board);
    assert |idx| == |kept|;
    forall j | 0 <= j < |idx|
      ensures r.board[r.linesCleared + j] == board[idx[j]]
    {
      assert r.board[r.linesCleared..][j] == r.board[r.linesCleared + j];
      assert kept[j] == board[idx[j]];
    }
  }

  /** A board with no full row comes back unchanged, with nothing cleared. */
  lemma ClearLinesOfNoFullRow(board: Board)
    requires IsBoard(board) && NoFullRow(board)
    ensures ClearLines(board) == Cleared(board, 0)
  {
    RemainingOfNoFullRow(board);
    var r := ClearLines(board);
    assert r.board == r.board[0..];
  }

  /** Clearing twice is clearing once. */
  lemma ClearLinesIdempotent(board: Board)
    requires IsBoard(board)
    ensures ClearLines(ClearLines(board).board) == Cleared(ClearLines(board).board, 0)
  {
    ClearLinesOfNoFullRow(ClearLines(board).board);
  }

  /** A board whose every row is full clears to the empty board. */
  lemma ClearLinesOfAllFull(board: Board)
    requires IsBoard(board) && AllFull(board)
    ensures ClearLines(board) == Cleared(CreateEmptyBoard(), BoardHeight)
  {
    RemainingOfAllFull(board);
    var r := ClearLines(board);
    assert r.board == r.board[..BoardHeight];
  }

  /** Clearing one full row k shifts the rows above it down by one, puts an
      empty row on top and leaves the rows below k where they were. */
  lemma ClearOneFullRow(board: Board, k: int)
    requires IsBoard(board) && 0 <= k < BoardHeight && IsFull(board[k])
    requires NoFullRow(board[..k]) && NoFullRow(board[k + 1..])
    ensures ClearLines(board) == Cleared([EmptyRow()] + board[..k] + board[k + 1..], 1)
  {
    var above := board[..k];
    var below := board[k + 1..];
    assert board == above + [board[k]] + below;
    RemainingSkipsOneFullRow(above, board[k], below);
    ClearLinesSplit(board);
    assert EmptyRows(1) == [EmptyRow()];
    assert [EmptyRow()] + above + below == [EmptyRow()] + (above + below);
  }

  /** Filtering a single full row out from between two runs of non-full rows. */
  lemma RemainingSkipsOneFullRow(above: seq<Row>, row: Row, below: seq<Row>)
    requires NoFullRow(above) && IsFull(row) && NoFullRow(below)
    ensures Remaining(above + [row] + below) == above + below
    ensures CountFull(above + [row] + below) == 1
  {
    assert Remaining([row]) == [] && CountFull([row]) == 1 by {
      assert [row][1..] == [];
    }
    RemainingAppend([row], below);
    assert above + [row] + below == above + ([row] + below);
    RemainingAppend(above, [row] + below);
    RemainingOfNoFullRow(above);
    RemainingOfNoFullRow(below);
  }

  /** The cleared board is the padding followed by the surviving rows. */
  lemma ClearLinesSplit(board: Board)
    requires IsBoard(board)
    ensures ClearLines(board).board == EmptyRows(CountFull(board)) + Remaining(board)
  {
  }

  /** Clearing keeps every cell a valid cell value. */
  lemma ClearLinesKeepsCellRange(board: Board)
    requires IsBoard(board) && CellsInRange(board)
    ensures CellsInRange(ClearLines(board).board)
  {
    var r := ClearLines(board);
    RemainingRowsComeFromInput(board);
    forall y, x | 0 <= y < |r.board| && 0 <= x < |r.board[y]|
      ensures 0 <= r.board[y][x] <= 7
    {
      if y >= r.linesCleared {
        assert r.board[y] == Remaining(board)[y - r.linesCleared];
      }
    }
  }

  // ---------------------------------------------------------------------
  // How many rows one lock can fill
  // ---------------------------------------------------------------------

  /** If every full row lies in [lo, hi), there are at most hi - lo of them. */
  lemma {:induction false} CountFullBound(rows: seq<Row>, lo: int, hi: int)
    requires lo <= hi
    requires forall i :: 0 <= i < |rows| && IsFull(rows[i]) ==> lo <= i < hi
    ensures CountFull(rows) <= hi - lo
  {
    if rows != [] {
      var rest := rows[1..];
      if IsFull(rows[0]) {
        forall i | 0 <= i < |rest| && IsFull(rest[i]) ensures 0 <= i < hi - 1 {
          assert rest[i] == rows[i + 1];
        }
        CountFullBound(rest, 0, hi - 1);
      } else {
        forall i | 0 <= i < |rest| && IsFull(rest[i]) ensures lo - 1 <= i < hi - 1 {
          assert rest[i] == rows[i + 1];
        }
        CountFullBound(rest, lo - 1, hi - 1);
      }
    }
  }

  /** Locking a piece into a board with no full row fills at most as many
      rows as the piece's shape has; for well-formed shapes that is at most 4,
      so the points table is never read past its last entry. */
  lemma LockClearsAtMostShapeRows(board: Board, piece: Piece)
    requires IsBoard(board) && NoFullRow(board)
    ensures CountFull(MergePieceToBoard(board, piece)) <= |piece.shape|
  {
    var merged := MergePieceToBoard(board, piece);
    var lo := piece.position.y;
    forall y | 0 <= y < |merged| && IsFull(merged[y])
      ensures lo <= y < lo + |piece.shape|
    {
    }
    CountFullBound(merged, lo, lo + |piece.shape|);
  }

  /** Merging keeps every cell a valid cell value. */
  lemma MergeKeepsCellRange(board: Board, piece: Piece)
    requires IsBoard(board) && CellsInRange(board) && IsColor(piece.color)
    ensures CellsInRange(MergePieceToBoard(board, piece))
  {
  }

  // ---------------------------------------------------------------------
  // Collision
  // ---------------------------------------------------------------------

  /** Rows above the board never collide: a piece wholly above the top edge
      and within the side walls is free whatever the board holds. */
  lemma AboveTopNeverCollides(board: Board, piece: Piece, pos: Position)
    requires IsBoard(board) && Rectangular(piece.shape)
    requires pos.y + |piece.shape| <= 0
    requires 0 <= pos.x && pos.x + |piece.shape[0]| <= BoardWidth
    ensures !Collides(board, piece, pos)
  {
  }

  /** A piece wholly above row 0 is judged only by the side walls: two
      boards, whatever they hold, give the same verdict. */
  lemma AboveTopIgnoresBoard(b1: Board, b2: Board, piece: Piece, pos: Position)
    requires IsBoard(b1) && IsBoard(b2)
    requires pos.y + |piece.shape| <= 0
    ensures Collides(b1, piece, pos) <==> Collides(b2, piece, pos)
  {
  }

  /** A shape without an occupied cell never collides, wherever it is put:
      neither the walls, the floor nor the board can stop it. */
  lemma UnoccupiedShapeNeverCollides(board: Board, piece: Piece, pos: Position)
    requires IsBoard(board) && !HasOccupiedCell(piece.shape)
    ensures !Collides(board, piece, pos)
  {
  }

  /** A locked piece cannot coexist with its own cells: once merged, the
      piece collides at the position it was merged from, provided one of
      its occupied cells lay inside the board. */
  lemma MergeThenCollides(board: Board, piece: Piece, r: int, c: int)
    requires IsBoard(board) && IsColor(piece.color)
    requires 0 <= r < |piece.shape| && 0 <= c < |piece.shape[r]| && piece.shape[r][c] != 0
    requires 0 <= piece.position.y + r < BoardHeight && 0 <= piece.position.x + c < BoardWidth
    ensures Collides(MergePieceToBoard(board, piece), piece, piece.position)
  {
  }

  /** A piece that fits on the board from row 0 down collides with the
      board it is merged into, at the very same position. */
  lemma FittingPieceCollidesOnceMerged(board: Board, piece: Piece)
    requires IsBoard(board) && ValidPiece(piece) && piece.position.y >= 0
    requires !Collides(board, piece, piece.position)
    ensures Collides(MergePieceToBoard(board, piece), piece, piece.position)
  {
    var r, c :| 0 <= r < |piece.shape| && 0 <= c < |piece.shape[r]| && piece.shape[r][c] != 0;
    assert !CellBlocked(board, piece.position.x + c, piece.position.y + r);
    MergeThenCollides(board, piece, r, c);
  }

  /** A freshly created piece never collides with the empty board. */
  lemma SpawnFitsEmptyBoard(catalog: seq<Shape>, roll: Roll)
    requires ValidCatalog(catalog) && ValidRoll(roll)
    ensures var p := CreatePiece(catalog, roll); !Collides(CreateEmptyBoard(), p, p.position)
  {
  }

  /** If a piece does not collide and it has an occupied cell, its row is
      above the bottom edge; this bounds every downward search. */
  lemma FreeIsAboveBottom(board: Board, piece: Piece, pos: Position)
    requires IsBoard(board) && HasOccupiedCell(piece.shape)
    requires !Collides(board, piece, pos)
    ensures pos.y < BoardHeight
  {
  }
}
