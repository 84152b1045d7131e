/** The value types of the game: board geometry, shapes, positions and
    pieces (src/types/game.ts). */
module GameTypes {

  /** Board dimensions in cells. */
  const BoardWidth: int := 10
  const BoardHeight: int := 20

  /** A board row; 0 is an empty cell, 1..7 a colour tag. */
  type Row = seq<int>

  /** Row-major grid, row 0 at the top. */
  type Board = seq<Row>

  /** Occupancy matrix of a piece; a non-zero cell is occupied. */
  type Shape = seq<seq<int>>

  datatype Option<T> = None | Some(value: T)

  /** Offset of the shape's top-left cell in board coordinates. */
  datatype Position = Position(x: int, y: int)

  datatype Piece = Piece(shape: Shape, color: int, position: Position)

  /** A grid of BoardHeight rows of BoardWidth cells each. */
  predicate IsBoard(b: Board) {
    |b| == BoardHeight && forall y :: 0 <= y < |b| ==> |b[y]| == BoardWidth
  }

  /** Every cell is empty or carries one of the seven colour tags. */
  predicate CellsInRange(b: Board) {
    forall y, x :: 0 <= y < |b| && 0 <= x < |b[y]| ==> 0 <= b[y][x] <= 7
  }

  predicate IsColor(c: int) {
    1 <= c <= 7
  }

  /** At least one row and one column, and every row as long as the first. */
  predicate Rectangular(s: Shape) {
    |s| >= 1 && |s[0]| >= 1 && forall r :: 0 <= r < |s| ==> |s[r]| == |s[0]|
  }

  predicate HasOccupiedCell(s: Shape) {
    exists r, c :: 0 <= r < |s| && 0 <= c < |s[r]| && s[r][c] != 0
  }

  /** A well-formed shape: a rectangular 0/1 matrix of at most 4 x 4 cells
      with at least one occupied cell. */
  predicate WellFormedShape(s: Shape) {
    && Rectangular(s)
    && |s| <= 4
    && |s[0]| <= 4
    && (forall r, c :: 0 <= r < |s| && 0 <= c < |s[r]| ==> s[r][c] == 0 || s[r][c] == 1)
    && HasOccupiedCell(s)
  }

  predicate ValidPiece(p: Piece) {
    WellFormedShape(p.shape) && IsColor(p.color)
  }
}
