/** The index ranges the engine scans outward from a square, and the squares
    they name. Move generation and capture resolution both walk these. */
module Ranges {
  import opened Grid

  /** Python's range(hi, -1, -1): hi, hi-1, ..., 0 (empty when hi < 0). */
  function RangeDown(hi: int): (r: seq<int>)
    ensures |r| == if hi < 0 then 0 else hi + 1
    ensures forall j :: 0 <= j < |r| ==> r[j] == hi - j
    decreases hi + 1
  {
    if hi < 0 then [] else [hi] + RangeDown(hi - 1)
  }

  /** Python's range(lo, 8): lo, lo+1, ..., 7 (empty when lo >= 8). */
  function RangeUp(lo: int): (r: seq<int>)
    ensures |r| == if lo >= 8 then 0 else 8 - lo
    ensures forall j :: 0 <= j < |r| ==> r[j] == lo + j
    decreases 8 - lo
  {
    if lo >= 8 then [] else [lo] + RangeUp(lo + 1)
  }

  /** The squares (i, col) for i in `rows`, in that order. */
  function ColumnCells(rows: seq<int>, col: int): (r: seq<Coord>)
    ensures |r| == |rows|
    ensures forall j :: 0 <= j < |r| ==> r[j] == Coord(rows[j], col)
  {
    seq(|rows|, j requires 0 <= j < |rows| => Coord(rows[j], col))
  }

  /** The squares (row, i) for i in `cols`, in that order. */
  function RowCells(row: int, cols: seq<int>): (r: seq<Coord>)
    ensures |r| == |cols|
    ensures forall j :: 0 <= j < |r| ==> r[j] == Coord(row, cols[j])
  {
    seq(|cols|, j requires 0 <= j < |cols| => Coord(row, cols[j]))
  }

  /** The four scan directions, in the order the engine visits them. */
  datatype Direction = North | South | West | East

  /** The square k steps from c in direction d. */
  function Shift(c: Coord, d: Direction, k: int): Coord
  {
    match d
    case North => Coord(c.row - k, c.col)
    case South => Coord(c.row + k, c.col)
    case West => Coord(c.row, c.col - k)
    case East => Coord(c.row, c.col + k)
  }

  /** How many squares lie between c and the edge of the board in direction d. */
  function Reach(c: Coord, d: Direction): int
  {
    match d
    case North => c.row
    case South => 7 - c.row
    case West => c.col
    case East => 7 - c.col
  }

  /** The squares the engine visits walking from `loc` in direction `d`:
      north is range(row-1, -1, -1) down the column, south range(row+1, 8),
      west range(col-1, -1, -1) along the row and east range(col+1, 8).
      The walk visits every square between `loc` and the edge, nearest first. */
  function Ray(loc: Coord, d: Direction): (r: seq<Coord>)
    ensures OnBoard(loc) ==> |r| == Reach(loc, d)
    ensures OnBoard(loc) ==> forall j :: 0 <= j < |r| ==> r[j] == Shift(loc, d, j + 1) && OnBoard(r[j])
  {
    match d
    case North => ColumnCells(RangeDown(loc.row - 1), loc.col)
    case South => ColumnCells(RangeUp(loc.row + 1), loc.col)
    case West => RowCells(loc.row, RangeDown(loc.col - 1))
    case East => RowCells(loc.row, RangeUp(loc.col + 1))
  }
}
