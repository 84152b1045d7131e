/** Properties of the engine transitions (src/hooks/useGameLogic.ts):
    rotation, the inactive and game-over guards, scoring scenarios, the
    hard-drop landing row, and the spawn check against the pre-lock board. */
module EngineLemmas {
  import opened GameTypes
  import opened GameUtils
  import opened GameLogic

  // ---------------------------------------------------------------------
  // Rotation
  // ---------------------------------------------------------------------

  /** Two quarter turns are a half turn: the matrix read backwards in both
      directions. */
  lemma RotateHalfTurn(s: Shape)
    requires Rectangular(s)
    ensures var h := RotateShape(RotateShape(s));
      && |h| == |s| && (forall i :: 0 <= i < |h| ==> |h[i]| == |s[0]|)
      && forall i, j :: 0 <= i < |s| && 0 <= j < |s[0]| ==> h[i][j] == s[|s| - 1 - i][|s[0]| - 1 - j]
  {
  }

  /** Four quarter turns give back the original shape. */
  lemma RotateFourTimes(s: Shape)
    requires Rectangular(s)
    ensures RotateShape(RotateShape(RotateShape(RotateShape(s)))) == s
  {
    var h := RotateShape(RotateShape(s));
    RotateHalfTurn(s);
    RotateHalfTurn(h);
    var q := RotateShape(RotateShape(h));
    assert |q| == |s|;
    forall i | 0 <= i < |s| ensures q[i] == s[i] {
      assert |q[i]| == |s[i]|;
      forall j | 0 <= j < |s[i]| ensures q[i][j] == s[i][j] {
        assert q[i][j] == h[|s| - 1 - i][|s[0]| - 1 - j];
      }
    }
  }

  // ---------------------------------------------------------------------
  // Spawn position
  // ---------------------------------------------------------------------

  /** Every piece a spawn makes current, whether by a lock or by start,
      starts on row 0, horizontally centred and between the side walls. */
  lemma SpawnedPiecesStartAtTop(s: State, catalog: seq<Shape>, d: Draws)
    requires Valid(s) && s.current.Some? && ValidCatalog(catalog) && ValidDraws(d)
    ensures var r := Lock(s, catalog, d); r.current.Some? ==>
      var p := r.current.value;
      && p.position == Position(BoardWidth / 2 - |p.shape[0]| / 2, 0)
      && 0 <= p.position.x && p.position.x + |p.shape[0]| <= BoardWidth
    ensures var p := StartGame(catalog, d).current.value;
      && p.position == Position(BoardWidth / 2 - |p.shape[0]| / 2, 0)
      && 0 <= p.position.x && p.position.x + |p.shape[0]| <= BoardWidth
  {
  }

  // ---------------------------------------------------------------------
  // Guards
  // ---------------------------------------------------------------------

  /** Pausing twice restores the state. */
  lemma PauseTwiceRestores(s: State)
    ensures PauseGame(PauseGame(s)) == s
  {
  }

  /** While paused, after game over or with no current piece, every move,
      rotate or drop leaves the state exactly as it was. */
  lemma InactiveIsNoOp(s: State, a: Action, catalog: seq<Shape>, d: Draws)
    requires Valid(s) && ValidCatalog(catalog) && ValidDraws(d)
    requires !Active(s) && a != Start && a != Pause
    ensures Step(s, a, catalog, d) == s
    ensures !MoveDown(s, catalog, d).moved
  {
  }

  /** Game over is final until the next start: only pausing changes
      anything, and then only the pause flag. */
  lemma GameOverIsFinal(s: State, a: Action, catalog: seq<Shape>, d: Draws)
    requires Valid(s) && ValidCatalog(catalog) && ValidDraws(d)
    requires s.gameOver && a != Start
    ensures Step(s, a, catalog, d).gameOver
    ensures Step(s, a, catalog, d).current.None?
    ensures a != Pause ==> Step(s, a, catalog, d) == s
  {
  }

  // ---------------------------------------------------------------------
  // Scoring
  // ---------------------------------------------------------------------

  /** The drop interval never goes below 100 ms and never grows with the
      level. */
  lemma SpeedBoundedAndMonotone(low: int, high: int)
    requires 1 <= low <= high
    ensures SpeedForLevel(high) <= SpeedForLevel(low)
    ensures SpeedForLevel(high) >= MinDropSpeed
  {
  }

  /** Worked examples of the scoring rule, including the level lag: the
      candidate level is computed from the score before the award. */
  lemma ScoringScenarios()
    ensures Award(Progress(0, 1, 1000), 2) == Progress(300, 1, 1000)
    ensures Award(Progress(950, 1, 1000), 1) == Progress(1050, 1, 1000)
    ensures Award(Progress(1050, 1, 1000), 1) == Progress(1150, 2, 900)
    ensures Award(Progress(1050, 1, 1000), 0) == Progress(1050, 1, 1000)
  {
  }

  // ---------------------------------------------------------------------
  // Hard drop on the empty board
  // ---------------------------------------------------------------------

  predicate RowOccupied(row: seq<int>) {
    exists c :: 0 <= c < |row| && row[c] != 0
  }

  /** Number of shape rows down to and including the lowest occupied one. */
  function Depth(s: Shape): (d: nat)
    ensures d <= |s|
    ensures forall r :: d <= r < |s| ==> !RowOccupied(s[r])
    ensures d > 0 ==> RowOccupied(s[d - 1])
    ensures HasOccupiedCell(s) ==> d > 0
  {
    if |s| == 0 then 0
    else if RowOccupied(s[|s| - 1]) then |s|
    else
      var front := s[..|s| - 1];
      assert forall r :: 0 <= r < |front| ==> front[r] == s[r];
      assert HasOccupiedCell(s) ==> HasOccupiedCell(front) by {
        if HasOccupiedCell(s) {
          var r, c :| 0 <= r < |s| && 0 <= c < |s[r]| && s[r][c] != 0;
          assert RowOccupied(s[r]);
          assert front[r][c] != 0;
        }
      }
      Depth(front)
  }

  /** Between the side walls on the empty board, a piece is free exactly
      when its lowest occupied row is still on the board. */
  lemma EmptyBoardFree(piece: Piece, pos: Position)
    requires Rectangular(piece.shape) && HasOccupiedCell(piece.shape)
    requires 0 <= pos.x && pos.x + |piece.shape[0]| <= BoardWidth
    ensures !Collides(CreateEmptyBoard(), piece, pos) <==> pos.y + Depth(piece.shape) <= BoardHeight
  {
    var s := piece.shape;
    var e := CreateEmptyBoard();
    var d := Depth(s);
    if pos.y + d > BoardHeight {
      var c :| 0 <= c < |s[d - 1]| && s[d - 1][c] != 0;
      assert CellBlocked(e, pos.x + c, pos.y + d - 1);
    } else {
      forall r, c | 0 <= r < |s| && 0 <= c < |s[r]| && s[r][c] != 0
        ensures !CellBlocked(e, pos.x + c, pos.y + r)
      {
        assert RowOccupied(s[r]);
      }
    }
  }

  /** Hard drop on the empty board: from any free row, a piece between the
      side walls lands with its lowest occupied row on the bottom row. */
  lemma HardDropOnEmptyBoard(piece: Piece, y: int)
    requires Rectangular(piece.shape) && HasOccupiedCell(piece.shape)
    requires 0 <= piece.position.x && piece.position.x + |piece.shape[0]| <= BoardWidth
    requires y + Depth(piece.shape) <= BoardHeight
    ensures LandingRow(CreateEmptyBoard(), piece, y) == BoardHeight - Depth(piece.shape)
  {
    var x := piece.position.x;
    var landing := LandingRow(CreateEmptyBoard(), piece, y);
    EmptyBoardFree(piece, Position(x, landing + 1));
    if landing > BoardHeight - Depth(piece.shape) {
      EmptyBoardFree(piece, Position(x, landing));
    }
  }

  // ---------------------------------------------------------------------
  // Descent of a 2 x 2 block on the empty board
  // ---------------------------------------------------------------------

  function SquareShape(): (s: Shape)
    ensures WellFormedShape(s)
  {
    var s := [[1, 1], [1, 1]];
    assert s[0][0] != 0;
    s
  }

  function SquareAt(y: int): Piece {
    Piece(SquareShape(), 3, Position(4, y))
  }

  /** On the empty board a 2 x 2 block at column 4 is free exactly on rows
      up to 18: its lower half would leave the board below that. */
  lemma SquareFreeOnEmptyBoard(y: int)
    requires 0 <= y
    ensures !Collides(CreateEmptyBoard(), SquareAt(0), Position(4, y)) <==> y <= 18
  {
    var p := SquareAt(0);
    if y > 18 {
      assert p.shape[1][0] != 0;
      assert CellBlocked(CreateEmptyBoard(), 4, y + 1);
    }
  }

  /** Soft drop of the block on the empty board: one row per step while it
      stands on rows 0..17, and on row 18 the step locks it. */
  lemma SquareSoftDrop(y: int, catalog: seq<Shape>, d: Draws)
    requires 0 <= y <= 18 && ValidCatalog(catalog) && ValidDraws(d)
    ensures var s := State(CreateEmptyBoard(), Some(SquareAt(y)), Some(SquareAt(0)), 0, 1, InitialDropSpeed, false, false);
      MoveDown(s, catalog, d).moved <==> y < 18
  {
    SquareFreeOnEmptyBoard(y + 1);
    assert SquareAt(y).shape == SquareAt(0).shape;
  }

  // ---------------------------------------------------------------------
  // Spawning is checked against the pre-lock board
  // ---------------------------------------------------------------------

  /** Columns 4 and 5 filled from row 2 down; no row is full. */
  function Tower(): Board {
    seq(BoardHeight, y requires 0 <= y < BoardHeight =>
      seq(BoardWidth, x requires 0 <= x < BoardWidth => if y >= 2 && 4 <= x <= 5 then 1 else 0))
  }

  /** A running game with a 2 x 2 block resting on top of Tower and another
      waiting as the next piece. */
  function TowerGame(): State {
    State(Tower(), Some(SquareAt(0)), Some(SquareAt(0)), 0, 1, InitialDropSpeed, false, false)
  }

  /** Locking a piece that leaves some column x empty (so no row is
      cleared), when the waiting piece is the same piece at the same
      position, spawns it onto the very cells the lock just filled, and the
      game does not end: the spawn check reads the board from before the
      lock. So "the current piece never overlaps the board" holds across
      moves but not across a spawn. */
  lemma SpawnIgnoresLockedPiece(s: State, catalog: seq<Shape>, d: Draws, x: int)
    requires Valid(s) && Active(s) && PieceFits(s) && ValidCatalog(catalog) && ValidDraws(d)
    requires s.next == s.current && s.current.value.position.y >= 0
    requires var p := s.current.value;
      Collides(s.board, p, Position(p.position.x, p.position.y + 1))
    requires 0 <= x < BoardWidth
    requires forall y :: 0 <= y < BoardHeight ==> s.board[y][x] == 0 && !Covers(s.current.value, x, y)
    ensures var r := MoveDown(s, catalog, d);
      && !r.moved && !r.state.gameOver && r.state.current == s.current
      && !PieceFits(r.state)
  {
    var p := s.current.value;
    var merged := MergePieceToBoard(s.board, p);
    assert NoFullRow(merged) by {
      forall y | 0 <= y < |merged| ensures !IsFull(merged[y]) {
        assert merged[y][x] == 0;
      }
    }
    BoardLemmas.FittingPieceCollidesOnceMerged(s.board, p);
    BoardLemmas.ClearLinesOfNoFullRow(merged);
    BlockedPieceLocks(s, catalog, d);
  }

  /** A running game with a 2 x 2 block resting on top of Tower and another
      waiting as the next piece meets every premise of
      SpawnIgnoresLockedPiece, with column 0 as the empty column, so the
      overlap does occur. */
  lemma TowerGameOverlapsOnSpawn()
    ensures var s := TowerGame(); var p := s.current.value;
      && Valid(s) && Active(s) && PieceFits(s) && ValidCatalog([SquareShape()])
      && s.next == s.current && p.position.y >= 0
      && Collides(s.board, p, Position(p.position.x, p.position.y + 1))
      && forall y :: 0 <= y < BoardHeight ==> s.board[y][0] == 0 && !Covers(p, 0, y)
  {
    var b := Tower();
    var p := SquareAt(0);
    assert p.shape[0][0] != 0;
    assert ValidPiece(p);
    assert NoFullRow(b) by {
      forall y | 0 <= y < |b| ensures !IsFull(b[y]) {
        assert b[y][0] == 0;
      }
    }
    assert !Collides(b, p, Position(4, 0));
    assert p.shape[1][0] != 0;
    assert CellBlocked(b, 4, 2);
  }
}
