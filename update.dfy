/** Move application: lift the mover's piece, put it on the destination and
    remove every piece the custodian rule captures from there. The input
    board is a value, so the engine's copy-then-write leaves it untouched. */
module Update {
  import opened Grid
  import opened CaptureRule

  /** The side a moved piece captures for: +1 for a positive piece, -1 for
      anything else. */
  function Team(pieceVal: int): int { if pieceVal > 0 then 1 else -1 }

  /** The board after the piece on `move.start` is lifted and put down on
      `move.end`, before any capture. */
  function MovePiece(grid: Board, move: Move): (r: Board)
    requires Wf(grid) && OnBoard(move.start) && OnBoard(move.end)
    ensures Wf(r)
  {
    Set(Set(grid, move.start, 0), move.end, At(grid, move.start))
  }

  /** `b` with every square of `cells` emptied, one after the other. */
  function ClearAll(b: Board, cells: seq<Coord>): (r: Board)
    requires Wf(b) && AllOnBoard(cells)
    ensures Wf(r)
  {
    if cells == [] then b else Set(ClearAll(b, cells[..|cells| - 1]), cells[|cells| - 1], 0)
  }

  lemma {:induction false} ClearAllCells(b: Board, cells: seq<Coord>)
    requires Wf(b) && AllOnBoard(cells)
    ensures forall c :: OnBoard(c) ==> At(ClearAll(b, cells), c) == if c in cells then 0 else At(b, c)
  {
    if cells != [] {
      var init := cells[..|cells| - 1];
      assert AllOnBoard(init);
      ClearAllCells(b, init);
      SetAt(ClearAll(b, init), cells[|cells| - 1], 0);
      assert cells == init + [cells[|cells| - 1]];
    }
  }

  /** What the move captures: find_captures at the destination, on the board
      after the piece has moved, for the side of the moved piece. */
  function CapturedBy(grid: Board, move: Move): seq<Coord>
    requires Wf(grid) && OnBoard(move.start) && OnBoard(move.end)
  {
    Captures(MovePiece(grid, move), move.end, Team(At(grid, move.start)))
  }

  /** The board update_board returns when the ownership check passes. */
  function Applied(grid: Board, move: Move): (r: Board)
    requires Wf(grid) && OnBoard(move.start) && OnBoard(move.end)
    ensures Wf(r)
  {
    CapturedAreEnemies(MovePiece(grid, move), move.end, Team(At(grid, move.start)));
    ClearAll(MovePiece(grid, move), CapturedBy(grid, move))
  }

  /** After the move the captured squares are empty, the destination holds
      the moved piece, the source is empty, and every other square is as it
      was. The destination is never captured, and every captured square held
      a piece of the other side before the move. */
  lemma AppliedCells(grid: Board, move: Move)
    requires Wf(grid) && OnBoard(move.start) && OnBoard(move.end)
    ensures move.end !in CapturedBy(grid, move)
    ensures forall c :: c in CapturedBy(grid, move) ==>
      OnBoard(c) && Team(At(grid, move.start)) * At(grid, c) < 0
    ensures forall c :: OnBoard(c) ==>
      At(Applied(grid, move), c) ==
        (if c in CapturedBy(grid, move) then 0
         else if c == move.end then At(grid, move.start)
         else if c == move.start then 0
         else At(grid, c))
  {
    var moved := MovePiece(grid, move);
    var team := Team(At(grid, move.start));
    SetAt(grid, move.start, 0);
    SetAt(Set(grid, move.start, 0), move.end, At(grid, move.start));
    CapturedAreEnemies(moved, move.end, team);
    ClearAllCells(moved, CapturedBy(grid, move));
    forall c | c in CapturedBy(grid, move)
      ensures OnBoard(c) && team * At(grid, c) < 0
    {
      assert team * At(moved, c) < 0;
    }
  }

  /** `AppliedCells` for a move made by the owner of the source square. */
  lemma AppliedByOwner(grid: Board, player: int, move: Move)
    requires Wf(grid) && OnBoard(move.start) && OnBoard(move.end)
    requires At(grid, move.start) == player
    ensures forall c :: OnBoard(c) ==>
      At(Applied(grid, move), c) ==
        (if c in CapturedBy(grid, move) then 0
         else if c == move.end then player
         else if c == move.start then 0
         else At(grid, c))
  {
    AppliedCells(grid, move);
  }

  /** update_board's last loop: empty every captured square of the copy, in
      order. */
  method ClearSquares(grid: Board, cells: seq<Coord>) returns (r: Board)
    requires Wf(grid) && AllOnBoard(cells)
    ensures r == ClearAll(grid, cells)
  {
    r := grid;
    for k := 0 to |cells|
      invariant Wf(r) && r == ClearAll(grid, cells[..k])
    {
      assert AllOnBoard(cells[..k]) && cells[..k + 1][..k] == cells[..k];
      r := Set(r, cells[k], 0);
    }
    assert cells[..|cells|] == cells;
  }

  /** update_board: fails with an ownership violation unless the source
      square holds exactly `player`; otherwise copies the grid, empties the
      source, writes the piece on the destination and empties every captured
      square. It checks neither that the destination is empty nor that the
      path is clear. */
  method UpdateBoard(gameGrid: Board, player: int, updateMove: Move) returns (r: Result<Board>)
    requires Wf(gameGrid) && OnBoard(updateMove.start) && OnBoard(updateMove.end)
    ensures r.Err? <==> At(gameGrid, updateMove.start) != player
    ensures r.Err? ==> r.error == OwnershipViolation
    ensures r.Ok? ==> r.value == Applied(gameGrid, updateMove)
  {
    var copyGrid := gameGrid;
    var formerLoc := updateMove.start;
    var newLoc := updateMove.end;
    var pieceVal := copyGrid[formerLoc.row][formerLoc.col];
    if pieceVal != player {
      return Err(OwnershipViolation);
    }
    copyGrid := Set(copyGrid, formerLoc, 0);
    copyGrid := Set(copyGrid, newLoc, pieceVal);
    var moved := copyGrid;
    assert moved == MovePiece(gameGrid, updateMove);
    var capped;
    if pieceVal > 0 {
      capped := FindCaptures(copyGrid, newLoc, 1);
    } else {
      capped := FindCaptures(copyGrid, updateMove.end, -1);
    }
    assert capped == CapturedBy(gameGrid, updateMove);
    CapturesOnBoard(moved, newLoc, Team(pieceVal));
    copyGrid := ClearSquares(moved, capped);
    r := Ok(copyGrid);
  }

  /** The squares holding a piece. */
  function Occupied(b: Board): set<Coord>
    requires Wf(b)
  {
    set r, c | 0 <= r < 8 && 0 <= c < 8 && b[r][c] != 0 :: Coord(r, c)
  }

  lemma SubsetSize<T>(a: set<T>, b: set<T>)
    requires a <= b
    ensures |a| <= |b|
  {
    assert b == a + (b - a);
  }

  /** Pieces are never created: a move leaves at most as many occupied
      squares as there were. */
  lemma OccupancyNeverGrows(grid: Board, move: Move)
    requires Wf(grid) && OnBoard(move.start) && OnBoard(move.end)
    ensures |Occupied(Applied(grid, move))| <= |Occupied(grid)|
  {
    var after := Applied(grid, move);
    AppliedCells(grid, move);
    var before := Occupied(grid);
    if At(grid, move.start) != 0 && move.start != move.end {
      var bound := (before - {move.start}) + {move.end};
      forall x | x in Occupied(after) ensures x in bound {
        assert At(after, x) != 0;
      }
      SubsetSize(Occupied(after), bound);
      assert move.start in before;
      assert |before - {move.start}| == |before| - 1;
    } else {
      forall x | x in Occupied(after) ensures x in before {
        assert At(after, x) != 0;
      }
      SubsetSize(Occupied(after), before);
    }
  }
}
