/** The board model and the piece factory (src/utils/gameUtils.ts): pure
    functions over a BoardHeight x BoardWidth grid. */
module GameUtils {
  import opened GameTypes

  // ---------------------------------------------------------------------
  // Empty board
  // ---------------------------------------------------------------------

  function EmptyRow(): (row: Row)
    ensures |row| == BoardWidth
    ensures forall x :: 0 <= x < |row| ==> row[x] == 0
    ensures !IsFull(row)
  {
    var row := seq(BoardWidth, _ => 0);
    assert row[0] == 0;
    row
  }

  function EmptyRows(n: nat): (rows: seq<Row>)
    ensures |rows| == n
    ensures forall i :: 0 <= i < n ==> rows[i] == EmptyRow()
  {
    seq(n, _ => EmptyRow())
  }

  /** createEmptyBoard: a well-shaped board whose cells are all empty. */
  function CreateEmptyBoard(): (b: Board)
    ensures IsBoard(b) && CellsInRange(b)
    ensures forall y, x :: 0 <= y < |b| && 0 <= x < |b[y]| ==> b[y][x] == 0
    ensures NoFullRow(b)
  {
    EmptyRows(BoardHeight)
  }

  // ---------------------------------------------------------------------
  // Piece factory
  // ---------------------------------------------------------------------

  /** The two values Math.random() yields for one createPiece call, each in
      [0, 1): the first picks the shape, the second the colour. */
  datatype Roll = Roll(shapeDraw: real, colorDraw: real)

  predicate ValidRoll(d: Roll) {
    0.0 <= d.shapeDraw < 1.0 && 0.0 <= d.colorDraw < 1.0
  }

  /** A non-empty catalogue of well-formed shapes. */
  predicate ValidCatalog(catalog: seq<Shape>) {
    |catalog| > 0 && forall i :: 0 <= i < |catalog| ==> WellFormedShape(catalog[i])
  }

  /** Math.floor(u * n) for a draw u in [0, 1): an index below n. */
  function ScaledFloor(u: real, n: nat): (k: int)
    requires 0.0 <= u < 1.0 && n > 0
    ensures 0 <= k < n
  {
    var scaled := u * (n as real);
    assert 0.0 <= scaled;
    assert scaled < n as real by {
      assert (n as real) - scaled == (1.0 - u) * (n as real);
    }
    scaled.Floor
  }

  /** The spawn position of a piece: the top row, horizontally centred
      (x = 5 - floor(width / 2)). */
  predicate AtSpawnPosition(p: Piece) {
    |p.shape| > 0 && p.position == Position(BoardWidth / 2 - |p.shape[0]| / 2, 0)
  }

  /** createPiece: a catalogue shape, a colour in 1..7 and a spawn position
      on the top row, horizontally centred. */
  function CreatePiece(catalog: seq<Shape>, roll: Roll): (p: Piece)
    requires ValidCatalog(catalog) && ValidRoll(roll)
    ensures ValidPiece(p)
    ensures p.shape in catalog
    ensures p.position.y == 0
    ensures p.position.x == BoardWidth / 2 - |p.shape[0]| / 2
    ensures 0 <= p.position.x && p.position.x + |p.shape[0]| <= BoardWidth
    ensures AtSpawnPosition(p)
  {
    var shapeIndex := ScaledFloor(roll.shapeDraw, |catalog|);
    var color := ScaledFloor(roll.colorDraw, 7) + 1;
    var shape := catalog[shapeIndex];
    Piece(shape, color, Position(BoardWidth / 2 - |shape[0]| / 2, 0))
  }

  // ---------------------------------------------------------------------
  // Collision
  // ---------------------------------------------------------------------

  /** A board cell a piece cell may not occupy: left of, right of or below
      the board, or a non-empty cell inside it. Above the top is allowed. */
  predicate CellBlocked(board: Board, x: int, y: int)
    requires IsBoard(board)
  {
    x < 0 || x >= BoardWidth || y >= BoardHeight || (y >= 0 && board[y][x] != 0)
  }

  /** Some occupied cell of the piece's shape, placed at pos, is blocked. */
  predicate Collides(board: Board, piece: Piece, pos: Position)
    requires IsBoard(board)
  {
    exists r, c ::
      && 0 <= r < |piece.shape|
      && 0 <= c < |piece.shape[r]|
      && piece.shape[r][c] != 0
      && CellBlocked(board, pos.x + c, pos.y + r)
  }

  /** checkCollision: scans the shape row by row and stops at the first
      occupied cell that is blocked. */
  method CheckCollision(board: Board, piece: Piece, pos: Position) returns (hit: bool)
    requires IsBoard(board)
    ensures hit <==> Collides(board, piece, pos)
  {
    var y := 0;
    while y < |piece.shape|
      invariant 0 <= y <= |piece.shape|
      invariant forall r, c :: 0 <= r < y && 0 <= c < |piece.shape[r]| && piece.shape[r][c] != 0 ==>
                  !CellBlocked(board, pos.x + c, pos.y + r)
    {
      var x := 0;
      while x < |piece.shape[y]|
        invariant 0 <= x <= |piece.shape[y]|
        invariant forall r, c :: 0 <= r < y && 0 <= c < |piece.shape[r]| && piece.shape[r][c] != 0 ==>
                    !CellBlocked(board, pos.x + c, pos.y + r)
        invariant forall c :: 0 <= c < x && piece.shape[y][c] != 0 ==> !CellBlocked(board, pos.x + c, pos.y + y)
      {
        if piece.shape[y][x] != 0 {
          var newX := pos.x + x;
          var newY := pos.y + y;
          if newX < 0 || newX >= BoardWidth || newY >= BoardHeight || (newY >= 0 && board[newY][newX] != 0) {
            return true;
          }
        }
        x := x + 1;
      }
      y := y + 1;
    }
    return false;
  }

  // ---------------------------------------------------------------------
  // Merge
  // ---------------------------------------------------------------------

  /** Board cell (x, y) lies under an occupied cell of the piece. */
  predicate Covers(piece: Piece, x: int, y: int) {
    var r := y - piece.position.y;
    var c := x - piece.position.x;
    0 <= r < |piece.shape| && 0 <= c < |piece.shape[r]| && piece.shape[r][c] != 0
  }

  /** mergePieceToBoard: a new board in which every occupied shape cell that
      falls inside the board carries the piece's colour; cells outside the
      board are dropped and every other cell keeps its value. */
  function MergePieceToBoard(board: Board, piece: Piece): (merged: Board)
    requires IsBoard(board)
    ensures IsBoard(merged)
    ensures forall r, c ::
              && 0 <= r < |piece.shape| && 0 <= c < |piece.shape[r]| && piece.shape[r][c] != 0
              && 0 <= piece.position.y + r < BoardHeight && 0 <= piece.position.x + c < BoardWidth
              ==> merged[piece.position.y + r][piece.position.x + c] == piece.color
    ensures forall y, x :: 0 <= y < BoardHeight && 0 <= x < BoardWidth && !Covers(piece, x, y) ==>
              merged[y][x] == board[y][x]
  {
    seq(BoardHeight, y requires 0 <= y < BoardHeight =>
      seq(BoardWidth, x requires 0 <= x < BoardWidth =>
        if Covers(piece, x, y) then piece.color else board[y][x]))
  }

  // ---------------------------------------------------------------------
  // Line clearing
  // ---------------------------------------------------------------------

  /** A row with no empty cell. */
  predicate IsFull(row: Row) {
    forall x :: 0 <= x < |row| ==> row[x] != 0
  }

  predicate NoFullRow(b: seq<Row>) {
    forall y :: 0 <= y < |b| ==> !IsFull(b[y])
  }

  /** The rows that survive a clear: the non-full ones, in their order. */
  function Remaining(rows: seq<Row>): (kept: seq<Row>)
    ensures |kept| <= |rows|
    ensures NoFullRow(kept)
  {
    if rows == [] then []
    else if IsFull(rows[0]) then Remaining(rows[1..])
    else [rows[0]] + Remaining(rows[1..])
  }

  /** Every surviving row is a row of the input. */
  lemma {:induction false} RemainingRowsComeFromInput(rows: seq<Row>)
    ensures forall i :: 0 <= i < |Remaining(rows)| ==> Remaining(rows)[i] in rows
  {
    if rows != [] {
      RemainingRowsComeFromInput(rows[1..]);
    }
  }

  /** The number of full rows. */
  function CountFull(rows: seq<Row>): nat {
    if rows == [] then 0 else (if IsFull(rows[0]) then 1 else 0) + CountFull(rows[1..])
  }

  /** Every row is either full or survives the clear. */
  lemma {:induction false} RemainingPartition(rows: seq<Row>)
    ensures CountFull(rows) + |Remaining(rows)| == |rows|
  {
    if rows != [] {
      RemainingPartition(rows[1..]);
    }
  }

  datatype Cleared = Cleared(board: Board, linesCleared: nat)

  /** clearLines: drops every full row and pads the top with empty rows
      until the board is BoardHeight rows tall again. */
  function ClearLines(board: Board): (r: Cleared)
    requires IsBoard(board)
    ensures IsBoard(r.board)
    ensures r.linesCleared == CountFull(board) <= BoardHeight
    ensures forall y :: 0 <= y < r.linesCleared ==> r.board[y] == EmptyRow()
    ensures r.board[r.linesCleared..] == Remaining(board)
    ensures NoFullRow(r.board)
  {
    var kept := Remaining(board);
    RemainingPartition(board);
    RemainingRowsComeFromInput(board);
    Cleared(EmptyRows(BoardHeight - |kept|) + kept, BoardHeight - |kept|)
  }
}
