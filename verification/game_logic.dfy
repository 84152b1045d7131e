/** The game engine (src/hooks/useGameLogic.ts) as pure transitions
    State x Action -> State. Each React state setter of the hook becomes a
    field update of the returned State; Math.random() becomes Roll inputs. */
module GameLogic {
  import opened GameTypes
  import opened GameUtils
  import BoardLemmas

  const InitialDropSpeed: int := 1000
  const SpeedIncreasePerLevel: int := 100
  /** Floor of the drop interval (the literal 100 in moveDown's Math.max). */
  const MinDropSpeed: int := 100

  function Max(a: int, b: int): int {
    if a >= b then a else b
  }

  /** The hook's state variables. */
  datatype State = State(
    board: Board,
    current: Option<Piece>,
    next: Option<Piece>,
    score: int,
    level: int,
    dropSpeed: int,
    gameOver: bool,
    isPaused: bool)

  /** The random draws one transition may consume. In Spawn, `first` feeds
      the createPiece call made only when no piece is waiting, and `second`
      the call that draws the new next piece. In StartGame, `first` feeds the
      next piece and `second` the current piece, in the hook's call order. */
  datatype Draws = Draws(first: Roll, second: Roll)

  predicate ValidDraws(d: Draws) {
    ValidRoll(d.first) && ValidRoll(d.second)
  }

  /** Drop interval belonging to a level. */
  function SpeedForLevel(level: int): int {
    Max(MinDropSpeed, InitialDropSpeed - (level - 1) * SpeedIncreasePerLevel)
  }

  /** The engine invariant: the board is a valid board with no full row,
      pieces are well-formed pieces, the waiting piece sits at its spawn
      position, the next piece is present whenever the current one is, game
      over has no current piece, and the drop interval is the one of the
      current level. */
  predicate Valid(s: State) {
    && IsBoard(s.board) && CellsInRange(s.board) && NoFullRow(s.board)
    && (s.current.Some? ==> ValidPiece(s.current.value))
    && (s.next.Some? ==> ValidPiece(s.next.value) && AtSpawnPosition(s.next.value))
    && (s.current.Some? ==> s.next.Some?)
    && (s.gameOver ==> s.current.None?)
    && s.score >= 0
    && s.level >= 1
    && s.dropSpeed == SpeedForLevel(s.level)
  }

  /** The guard every move, rotate and drop handler starts with. */
  predicate Active(s: State) {
    s.current.Some? && !s.gameOver && !s.isPaused
  }

  /** The current piece does not overlap the board. */
  predicate PieceFits(s: State)
    requires IsBoard(s.board)
  {
    s.current.Some? ==> !Collides(s.board, s.current.value, s.current.value.position)
  }

  function MovedTo(p: Piece, x: int, y: int): Piece {
    p.(position := Position(x, y))
  }

  /** The state the hook starts with, before the first startGame. */
  function Initial(): (s: State)
    ensures Valid(s) && !Active(s)
  {
    State(CreateEmptyBoard(), None, None, 0, 1, InitialDropSpeed, false, false)
  }

  // ---------------------------------------------------------------------
  // Scoring
  // ---------------------------------------------------------------------

  /** Points for clearing 0..4 rows in one lock. */
  function Points(lines: nat): (pts: nat)
    requires lines <= 4
    ensures lines == 0 <==> pts == 0
    ensures forall fewer :: 0 <= fewer < lines ==> Points(fewer) < pts
  {
    [0, 100, 300, 500, 800][lines]
  }

  datatype Progress = Progress(score: int, level: int, dropSpeed: int)

  /** Score, level and drop interval after a lock that cleared `lines`
      rows. Nothing changes when no row was cleared. Otherwise the score
      grows by Points(lines) * level, and the level candidate is computed
      from the score BEFORE this award (floor(score / 1000) + 1; Dafny's `/`
      by a positive divisor is floor division, as Math.floor is). The level
      only ever rises, and the interval is recomputed only when it does. */
  function Award(p: Progress, lines: nat): (r: Progress)
    requires lines <= 4
    ensures lines == 0 ==> r == p
    ensures lines > 0 ==> r.score == p.score + Points(lines) * p.level
    ensures lines > 0 ==> r.level == Max(p.level, p.score / 1000 + 1)
    ensures r.level > p.level ==> r.dropSpeed == SpeedForLevel(r.level)
    ensures r.level == p.level ==> r.dropSpeed == p.dropSpeed
    ensures p.level >= 1 ==> r.score >= p.score && r.level >= p.level
  {
    if lines == 0 then p
    else
      var score := p.score + Points(lines) * p.level;
      var newLevel := p.score / 1000 + 1;
      if newLevel > p.level then Progress(score, newLevel, SpeedForLevel(newLevel))
      else Progress(score, p.level, p.dropSpeed)
  }

  // ---------------------------------------------------------------------
  // Spawning
  // ---------------------------------------------------------------------

  datatype Spawned = Spawned(current: Option<Piece>, next: Piece, gameOver: bool)

  /** The piece spawnPiece brings into play: the waiting next piece, or a
      fresh one when there is none. */
  function Incoming(next: Option<Piece>, catalog: seq<Shape>, d: Draws): (p: Piece)
    requires ValidCatalog(catalog) && ValidDraws(d)
    requires next.Some? ==> ValidPiece(next.value)
    ensures ValidPiece(p)
    ensures next.Some? ==> p == next.value
    ensures next.None? ==> p.shape in catalog && AtSpawnPosition(p)
  {
    if next.Some? then next.value else CreatePiece(catalog, d.first)
  }

  /** spawnPiece: the incoming piece becomes current unless it collides at
      its own position on `board`, in which case the game is over and there
      is no current piece; either way a fresh next piece is drawn. */
  function Spawn(board: Board, next: Option<Piece>, catalog: seq<Shape>, d: Draws): (r: Spawned)
    requires IsBoard(board) && ValidCatalog(catalog) && ValidDraws(d)
    requires next.Some? ==> ValidPiece(next.value)
    ensures ValidPiece(r.next) && r.next.shape in catalog && AtSpawnPosition(r.next)
    ensures (next.Some? ==> AtSpawnPosition(next.value)) && r.current.Some? ==>
      AtSpawnPosition(r.current.value)
    ensures r.gameOver <==> r.current.None?
    ensures var p := Incoming(next, catalog, d);
      && (r.gameOver <==> Collides(board, p, p.position))
      && (r.current.Some? ==> r.current.value == p)
  {
    var piece := Incoming(next, catalog, d);
    var drawn := CreatePiece(catalog, d.second);
    if Collides(board, piece, piece.position) then Spawned(None, drawn, true)
    else Spawned(Some(piece), drawn, false)
  }

  // ---------------------------------------------------------------------
  // Moves
  // ---------------------------------------------------------------------

  /** moveLeft: shifts the current piece one column left when that spot is
      free; otherwise, or when inactive, nothing changes. */
  function MoveLeft(s: State): (r: State)
    requires IsBoard(s.board)
    ensures Valid(s) ==> Valid(r)
    ensures !Active(s) ==> r == s
    ensures r != s <==> Active(s) && !Collides(s.board, s.current.value,
                          Position(s.current.value.position.x - 1, s.current.value.position.y))
    ensures r != s ==> r == s.(current := Some(MovedTo(s.current.value,
                          s.current.value.position.x - 1, s.current.value.position.y)))
    ensures PieceFits(s) ==> PieceFits(r)
  {
    if !Active(s) then s
    else
      var piece := s.current.value;
      var target := Position(piece.position.x - 1, piece.position.y);
      if !Collides(s.board, piece, target) then s.(current := Some(MovedTo(piece, target.x, target.y))) else s
  }

  /** moveRight: the mirror image of moveLeft. */
  function MoveRight(s: State): (r: State)
    requires IsBoard(s.board)
    ensures Valid(s) ==> Valid(r)
    ensures !Active(s) ==> r == s
    ensures r != s <==> Active(s) && !Collides(s.board, s.current.value,
                          Position(s.current.value.position.x + 1, s.current.value.position.y))
    ensures r != s ==> r == s.(current := Some(MovedTo(s.current.value,
                          s.current.value.position.x + 1, s.current.value.position.y)))
    ensures PieceFits(s) ==> PieceFits(r)
  {
    if !Active(s) then s
    else
      var piece := s.current.value;
      var target := Position(piece.position.x + 1, piece.position.y);
      if !Collides(s.board, piece, target) then s.(current := Some(MovedTo(piece, target.x, target.y))) else s
  }

  // ---------------------------------------------------------------------
  // Rotation
  // ---------------------------------------------------------------------

  /** The clockwise quarter turn of rotate: an R x C matrix becomes C x R
      with rotated[i][j] == shape[R - 1 - j][i]. */
  function RotateShape(s: Shape): (r: Shape)
    requires Rectangular(s)
    ensures Rectangular(r) && |r| == |s[0]| && |r[0]| == |s|
  {
    seq(|s[0]|, i requires 0 <= i < |s[0]| =>
      seq(|s|, j requires 0 <= j < |s| => s[|s| - 1 - j][i]))
  }

  /** A quarter turn keeps an occupied cell occupied, so a turned
      well-formed shape is again a well-formed shape. */
  lemma RotateKeepsWellFormed(s: Shape)
    requires Rectangular(s)
    ensures HasOccupiedCell(s) ==> HasOccupiedCell(RotateShape(s))
    ensures WellFormedShape(s) ==> WellFormedShape(RotateShape(s))
  {
    if HasOccupiedCell(s) {
      var r, c :| 0 <= r < |s| && 0 <= c < |s[r]| && s[r][c] != 0;
      var q := RotateShape(s);
      assert q[c][|s| - 1 - r] == s[r][c];
    }
  }

  /** rotate: the turned piece replaces the current one when it fits at the
      unchanged position (no wall kick); otherwise nothing changes. */
  function Rotate(s: State): (r: State)
    requires IsBoard(s.board) && (s.current.Some? ==> Rectangular(s.current.value.shape))
    ensures Valid(s) ==> Valid(r)
    ensures !Active(s) ==> r == s
    ensures Active(s) ==>
      var turned := s.current.value.(shape := RotateShape(s.current.value.shape));
      && (!Collides(s.board, turned, s.current.value.position) ==> r == s.(current := Some(turned)))
      && (Collides(s.board, turned, s.current.value.position) ==> r == s)
    ensures PieceFits(s) ==> PieceFits(r)
  {
    if !Active(s) then s
    else
      var piece := s.current.value;
      RotateKeepsWellFormed(piece.shape);
      var turned := piece.(shape := RotateShape(piece.shape));
      if !Collides(s.board, turned, piece.position) then s.(current := Some(turned)) else s
  }

  // ---------------------------------------------------------------------
  // Descent, locking and spawning
  // ---------------------------------------------------------------------

  /** The lock branch of moveDown: merge the current piece, clear full rows,
      award points, then spawn. Spawn collision is checked against the board
      as it was BEFORE the merge, the board spawnPiece's closure holds. */
  function Lock(s: State, catalog: seq<Shape>, d: Draws): (r: State)
    requires Valid(s) && s.current.Some? && ValidCatalog(catalog) && ValidDraws(d)
    ensures Valid(r)
    ensures r.board == ClearLines(MergePieceToBoard(s.board, s.current.value)).board
    ensures var lines := CountFull(MergePieceToBoard(s.board, s.current.value));
      && lines <= |s.current.value.shape|
      && (lines == 0 ==> r.score == s.score && r.level == s.level && r.dropSpeed == s.dropSpeed)
      && (lines > 0 ==> r.score == s.score + Points(lines) * s.level)
      && (lines > 0 ==> r.level == Max(s.level, s.score / 1000 + 1))
    ensures r.score >= s.score && r.level >= s.level && r.dropSpeed <= s.dropSpeed
    ensures var p := Incoming(s.next, catalog, d);
      && (r.gameOver <==> Collides(s.board, p, p.position))
      && (r.current == if r.gameOver then None else Some(p))
    ensures r.next.Some? && r.next.value.shape in catalog && r.isPaused == s.isPaused
    ensures AtSpawnPosition(r.next.value)
    ensures r.current.Some? ==> AtSpawnPosition(r.current.value)
  {
    var piece := s.current.value;
    var merged := MergePieceToBoard(s.board, piece);
    BoardLemmas.LockClearsAtMostShapeRows(s.board, piece);
    BoardLemmas.MergeKeepsCellRange(s.board, piece);
    var cleared := ClearLines(merged);
    BoardLemmas.ClearLinesKeepsCellRange(merged);
    var progress := Award(Progress(s.score, s.level, s.dropSpeed), cleared.linesCleared);
    var spawned := Spawn(s.board, s.next, catalog, d);
    State(cleared.board, spawned.current, Some(spawned.next), progress.score, progress.level,
          progress.dropSpeed, s.gameOver || spawned.gameOver, s.isPaused)
  }

  datatype Descent = Descent(state: State, moved: bool)

  /** moveDown (also the timer tick): the piece falls one row when the row
      below is free and the result reports true; when blocked the piece
      locks and the result reports false; when inactive nothing changes and
      the result reports false. */
  function MoveDown(s: State, catalog: seq<Shape>, d: Draws): (r: Descent)
    requires Valid(s) && ValidCatalog(catalog) && ValidDraws(d)
    ensures Valid(r.state)
    ensures !Active(s) ==> r == Descent(s, false)
    ensures r.moved <==> Active(s) && !Collides(s.board, s.current.value,
                           Position(s.current.value.position.x, s.current.value.position.y + 1))
    ensures r.moved ==> r.state == s.(current := Some(MovedTo(s.current.value,
                           s.current.value.position.x, s.current.value.position.y + 1)))
    ensures Active(s) && !r.moved ==> r.state == Lock(s, catalog, d)
    ensures r.moved && PieceFits(s) ==> PieceFits(r.state)
  {
    if !Active(s) then Descent(s, false)
    else
      var piece := s.current.value;
      var target := Position(piece.position.x, piece.position.y + 1);
      if !Collides(s.board, piece, target) then Descent(s.(current := Some(MovedTo(piece, target.x, target.y))), true)
      else Descent(Lock(s, catalog, d), false)
  }

  /** The row hard drop stops at, searching down from row y: the piece is
      blocked one row lower, and every row passed on the way is free. */
  function LandingRow(board: Board, piece: Piece, y: int): (landing: int)
    requires IsBoard(board) && HasOccupiedCell(piece.shape)
    ensures landing >= y
    ensures Collides(board, piece, Position(piece.position.x, landing + 1))
    ensures forall k :: y < k <= landing ==> !Collides(board, piece, Position(piece.position.x, k))
    decreases BoardHeight - y
  {
    var below := Position(piece.position.x, y + 1);
    if Collides(board, piece, below) then y
    else
      BoardLemmas.FreeIsAboveBottom(board, piece, below);
      LandingRow(board, piece, y + 1)
  }

  /** The while loop of drop: the current piece moved straight down to its
      landing row; nothing else changes. */
  function Landed(s: State): (r: State)
    requires Valid(s) && Active(s)
    ensures Valid(r) && Active(r)
    ensures var p := s.current.value; var q := r.current.value;
      && r == s.(current := Some(MovedTo(p, p.position.x, q.position.y)))
      && q.position.y >= p.position.y
      && Collides(s.board, p, Position(p.position.x, q.position.y + 1))
    ensures PieceFits(s) ==> PieceFits(r)
  {
    var piece := s.current.value;
    var y := LandingRow(s.board, piece, piece.position.y);
    s.(current := Some(MovedTo(piece, piece.position.x, y)))
  }

  /** A soft drop of a blocked piece is its lock. */
  lemma BlockedPieceLocks(s: State, catalog: seq<Shape>, d: Draws)
    requires Valid(s) && Active(s) && ValidCatalog(catalog) && ValidDraws(d)
    requires var p := s.current.value;
      Collides(s.board, p, Position(p.position.x, p.position.y + 1))
    ensures MoveDown(s, catalog, d) == Descent(Lock(s, catalog, d), false)
  {
  }

  /** drop: descend to the landing row, then lock as a blocked moveDown does
      (synchronously; the hook defers this step by a 50 ms timeout). */
  function Drop(s: State, catalog: seq<Shape>, d: Draws): (r: State)
    requires Valid(s) && ValidCatalog(catalog) && ValidDraws(d)
    ensures Valid(r)
    ensures !Active(s) ==> r == s
    ensures Active(s) ==> r == Lock(Landed(s), catalog, d)
  {
    if !Active(s) then s
    else
      var landed := Landed(s);
      var q := landed.current.value;
      assert q.shape == s.current.value.shape;
      assert Collides(landed.board, q, Position(q.position.x, q.position.y + 1));
      BlockedPieceLocks(landed, catalog, d);
      MoveDown(landed, catalog, d).state
  }

  // ---------------------------------------------------------------------
  // Start and pause
  // ---------------------------------------------------------------------

  /** startGame: whatever the previous state, a running game on an empty
      board at score 0, level 1 and the initial interval, with a current and
      a next piece (the next piece is drawn first). */
  function StartGame(catalog: seq<Shape>, d: Draws): (r: State)
    requires ValidCatalog(catalog) && ValidDraws(d)
    ensures Valid(r) && Active(r) && PieceFits(r)
    ensures r.board == CreateEmptyBoard()
    ensures r.score == 0 && r.level == 1 && r.dropSpeed == InitialDropSpeed
    ensures r.next.Some? && !r.gameOver && !r.isPaused
    ensures AtSpawnPosition(r.current.value) && AtSpawnPosition(r.next.value)
  {
    BoardLemmas.SpawnFitsEmptyBoard(catalog, d.second);
    State(CreateEmptyBoard(), Some(CreatePiece(catalog, d.second)), Some(CreatePiece(catalog, d.first)),
          0, 1, InitialDropSpeed, false, false)
  }

  /** pauseGame: flips the pause flag, in every state. */
  function PauseGame(s: State): (r: State)
    ensures r.isPaused != s.isPaused
    ensures r.(isPaused := s.isPaused) == s
    ensures Valid(s) ==> Valid(r)
  {
    s.(isPaused := !s.isPaused)
  }

  // ---------------------------------------------------------------------
  // Actions
  // ---------------------------------------------------------------------

  /** The hook's handlers; Down is both the down key and the timer tick. */
  datatype Action = Left | Right | Down | Turn | HardDrop | Start | Pause

  function Step(s: State, a: Action, catalog: seq<Shape>, d: Draws): (r: State)
    requires Valid(s) && ValidCatalog(catalog) && ValidDraws(d)
    ensures Valid(r)
    ensures a != Start ==> r.score >= s.score && r.level >= s.level && r.dropSpeed <= s.dropSpeed
  {
    match a
    case Left => MoveLeft(s)
    case Right => MoveRight(s)
    case Down => MoveDown(s, catalog, d).state
    case Turn => Rotate(s)
    case HardDrop => Drop(s, catalog, d)
    case Start => StartGame(catalog, d)
    case Pause => PauseGame(s)
  }

  /** Runs actions[i] with draws[i], in order. */
  function Run(s: State, actions: seq<Action>, catalog: seq<Shape>, draws: seq<Draws>): (r: State)
    requires Valid(s) && ValidCatalog(catalog)
    requires |draws| == |actions| && forall i :: 0 <= i < |draws| ==> ValidDraws(draws[i])
    ensures Valid(r)
    ensures Start !in actions ==> r.score >= s.score && r.level >= s.level && r.dropSpeed <= s.dropSpeed
    decreases |actions|
  {
    if actions == [] then s
    else Run(Step(s, actions[0], catalog, draws[0]), actions[1..], catalog, draws[1..])
  }
}
