/** The Petteia board model: an 8x8 grid of signed integers. A cell holding 0
    is empty; a non-zero cell holds a piece, and its sign names the side that
    owns it (+1 for the first player, -1 for the second). */
module Grid {

  /** The board as the engine passes it around: 8 rows of 8 cells. */
  type Board = seq<seq<int>>

  /** A square, as the pair (row, column) the engine uses. Coordinates are
      plain integers: the action codec computes them before anything checks
      that they lie on the board. */
  datatype Coord = Coord(row: int, col: int)

  /** A move takes the piece on `start` to `end`. */
  datatype Move = Move(start: Coord, end: Coord)

  /** The two failures the engine raises (as an AssertionError): moving a
      piece that does not belong to the mover, and a policy vector of the
      wrong length. */
  datatype GameError = OwnershipViolation | PolicySizeMismatch

  datatype Result<T> = Ok(value: T) | Err(error: GameError)

  predicate Wf(b: Board)
  {
    |b| == 8 && forall r :: 0 <= r < 8 ==> |b[r]| == 8
  }

  predicate OnBoard(c: Coord)
  {
    0 <= c.row < 8 && 0 <= c.col < 8
  }

  /** The position of a square in row-major order; the action codec gives
      each square the block of 14 actions with this number. */
  function Index(c: Coord): int { 8 * c.row + c.col }

  /** A straight move: both squares on the board and exactly one coordinate
      changed. */
  predicate IsStep(m: Move)
  {
    OnBoard(m.start) && OnBoard(m.end) && (m.start.row == m.end.row) != (m.start.col == m.end.col)
  }

  function At(b: Board, c: Coord): int
    requires Wf(b) && OnBoard(c)
  {
    b[c.row][c.col]
  }

  /** The board `b` with the single cell `c` overwritten by `v`. */
  function Set(b: Board, c: Coord, v: int): (r: Board)
    requires Wf(b) && OnBoard(c)
    ensures Wf(r)
  {
    b[c.row := b[c.row][c.col := v]]
  }

  lemma SetAt(b: Board, c: Coord, v: int)
    requires Wf(b) && OnBoard(c)
    ensures forall x :: OnBoard(x) ==> At(Set(b, c, v), x) == if x == c then v else At(b, x)
  {
  }

  /** The starting position: the second player's pieces fill row 0, the first
      player's fill row 7, every other square is empty. */
  predicate IsInitial(b: Board)
  {
    Wf(b) &&
    forall r, c :: 0 <= r < 8 && 0 <= c < 8 ==>
      b[r][c] == (if r == 0 then -1 else if r == 7 then 1 else 0)
  }

  /** create_board: start from an all-empty grid and fill rows 0 and 7 one
      column at a time. */
  method CreateBoard() returns (grid: Board)
    ensures IsInitial(grid)
  {
    grid := seq(8, _ => seq(8, _ => 0));
    for index := 0 to 8
      invariant Wf(grid)
      invariant forall r, c :: 0 <= r < 8 && 0 <= c < 8 ==>
        grid[r][c] == (if r == 0 && c < index then -1 else if r == 7 && c < index then 1 else 0)
    {
      grid := grid[0 := grid[0][index := -1]];
      grid := grid[7 := grid[7][index := 1]];
    }
  }
}
