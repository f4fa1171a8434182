/** Capture resolution: the custodian rule. After a piece lands on a square,
    each of the four directions is walked outward; a contiguous run of enemy
    pieces that is closed by a friendly piece is captured, a run that stops at
    an empty square or at the edge of the board is not. */
module CaptureRule {
  import opened Grid
  import opened Ranges

  predicate AllOnBoard(cells: seq<Coord>)
  {
    forall j :: 0 <= j < |cells| ==> OnBoard(cells[j])
  }

  /** How a walk outward from a square ends: at a friendly piece that closes
      the run of enemy pieces met so far (which may be empty), at an empty
      square, or at the edge of the board. Only the first one captures. */
  datatype ScanEnd = Flanked(run: seq<Coord>) | OpenEnd | BoardEdge

  function Extend(prefix: seq<Coord>, e: ScanEnd): ScanEnd
  {
    match e
    case Flanked(run) => Flanked(prefix + run)
    case _ => e
  }

  /** Walk `cells` in order, from the point of view of `team`: a cell whose
      value has the opposite sign to `team` joins the run, an empty cell ends
      the walk, a cell of the same sign closes the run. */
  function Scan(b: Board, team: int, cells: seq<Coord>): ScanEnd
    requires Wf(b) && AllOnBoard(cells)
  {
    if cells == [] then BoardEdge
    else
      var pieceType := team * At(b, cells[0]);
      if pieceType < 0 then Extend([cells[0]], Scan(b, team, cells[1..]))
      else if pieceType == 0 then OpenEnd
      else Flanked([])
  }

  /** What one direction captures: the run, when a friendly piece closes it. */
  function CaptureAlong(b: Board, team: int, cells: seq<Coord>): seq<Coord>
    requires Wf(b) && AllOnBoard(cells)
  {
    match Scan(b, team, cells)
    case Flanked(run) => run
    case _ => []
  }

  /** The first `k` cells are enemy pieces and cell `k` is a friendly one. */
  predicate Closes(b: Board, team: int, cells: seq<Coord>, k: int)
    requires Wf(b) && AllOnBoard(cells)
  {
    0 <= k < |cells| &&
    (forall j :: 0 <= j < k ==> team * At(b, cells[j]) < 0) &&
    team * At(b, cells[k]) > 0
  }

  /** The three ways a walk ends, each characterised by the cells walked. */
  lemma {:induction false} ScanCases(b: Board, team: int, cells: seq<Coord>)
    requires Wf(b) && AllOnBoard(cells)
    ensures Scan(b, team, cells).BoardEdge? <==>
      forall j :: 0 <= j < |cells| ==> team * At(b, cells[j]) < 0
    ensures Scan(b, team, cells).Flanked? <==> exists k :: Closes(b, team, cells, k)
    ensures Scan(b, team, cells).Flanked? ==>
      var run := Scan(b, team, cells).run;
      Closes(b, team, cells, |run|) && run == cells[..|run|]
  {
    if cells != [] {
      var rest := cells[1..];
      assert AllOnBoard(rest);
      ScanCases(b, team, rest);
      var e := Scan(b, team, rest);
      if team * At(b, cells[0]) < 0 {
        assert Scan(b, team, cells) == Extend([cells[0]], e);
        if forall j :: 0 <= j < |rest| ==> team * At(b, rest[j]) < 0 {
          forall j | 0 <= j < |cells|
            ensures team * At(b, cells[j]) < 0
          {
            if j > 0 { assert cells[j] == rest[j - 1]; }
          }
        }
        if forall j :: 0 <= j < |cells| ==> team * At(b, cells[j]) < 0 {
          forall j | 0 <= j < |rest|
            ensures team * At(b, rest[j]) < 0
          {
            assert rest[j] == cells[j + 1];
          }
        }
        if k :| Closes(b, team, cells, k) {
          assert k != 0;
          assert Closes(b, team, rest, k - 1);
        }
        if e.Flanked? {
          var run := e.run;
          assert Closes(b, team, rest, |run|);
          assert Closes(b, team, cells, |run| + 1) by {
            forall j | 0 <= j < |run| + 1
              ensures team * At(b, cells[j]) < 0
            {
              if j > 0 { assert cells[j] == rest[j - 1]; }
            }
            assert cells[|run| + 1] == rest[|run|];
          }
          assert [cells[0]] + run == cells[..|run| + 1];
        }
      } else if team * At(b, cells[0]) == 0 {
        assert !(team * At(b, cells[0]) < 0);
      } else {
        assert Closes(b, team, cells, 0);
        assert !(team * At(b, cells[0]) < 0);
      }
    }
  }

  /** `Scan` over cells whose first `k` are all enemy pieces resumes after
      them with those `k` cells already in the run. */
  lemma {:induction false} ScanSkipsEnemies(b: Board, team: int, cells: seq<Coord>, k: nat)
    requires Wf(b) && AllOnBoard(cells) && k <= |cells|
    requires forall j :: 0 <= j < k ==> team * At(b, cells[j]) < 0
    ensures AllOnBoard(cells[k..])
    ensures Scan(b, team, cells) == Extend(cells[..k], Scan(b, team, cells[k..]))
  {
    assert AllOnBoard(cells[k..]);
    if k > 0 {
      var rest := cells[1..];
      assert AllOnBoard(rest);
      forall j | 0 <= j < k - 1
        ensures team * At(b, rest[j]) < 0
      {
        assert rest[j] == cells[j + 1];
      }
      ScanSkipsEnemies(b, team, rest, k - 1);
      assert team * At(b, cells[0]) < 0;
      assert Scan(b, team, cells) == Extend([cells[0]], Scan(b, team, rest));
      assert rest[k - 1..] == cells[k..];
      assert [cells[0]] + rest[..k - 1] == cells[..k];
      match Scan(b, team, cells[k..])
      case Flanked(run) =>
        assert [cells[0]] + (rest[..k - 1] + run) == cells[..k] + run;
      case _ =>
    } else {
      assert cells[..0] == [];
      match Scan(b, team, cells)
      case Flanked(run) => assert [] + run == run;
      case _ =>
    }
  }

  /** check_capture_direction_NS: walk the rows in `searchSpaces` down the
      column of `pieceLocation`, gathering enemy pieces; give them back when
      a friendly piece closes the run, and nothing when the walk reaches an
      empty square or runs out. */
  method CheckCaptureDirectionNS(grid: Board, pieceLocation: Coord, team: int, searchSpaces: seq<int>)
    returns (captured: seq<Coord>)
    requires Wf(grid) && 0 <= pieceLocation.col < 8
    requires forall j :: 0 <= j < |searchSpaces| ==> 0 <= searchSpaces[j] < 8
    ensures captured == CaptureAlong(grid, team, ColumnCells(searchSpaces, pieceLocation.col))
  {
    ghost var cells := ColumnCells(searchSpaces, pieceLocation.col);
    var potentialCapture := [];
    var k := 0;
    while k < |searchSpaces|
      invariant 0 <= k <= |searchSpaces|
      invariant potentialCapture == cells[..k]
      invariant forall j :: 0 <= j < k ==> team * At(grid, cells[j]) < 0
    {
      var i := searchSpaces[k];
      var pieceType := team * grid[i][pieceLocation.col];
      if pieceType < 0 {
        potentialCapture := potentialCapture + [Coord(i, pieceLocation.col)];
      } else if pieceType == 0 {
        ScanSkipsEnemies(grid, team, cells, k);
        return [];
      } else {
        ScanSkipsEnemies(grid, team, cells, k);
        assert potentialCapture + [] == potentialCapture;
        return potentialCapture;
      }
      k := k + 1;
    }
    ScanSkipsEnemies(grid, team, cells, k);
    captured := [];
  }

  /** check_capture_direction_EW: the same walk along the row of
      `pieceLocation`, over the columns in `searchSpaces`. */
  method CheckCaptureDirectionEW(grid: Board, pieceLocation: Coord, team: int, searchSpaces: seq<int>)
    returns (captured: seq<Coord>)
    requires Wf(grid) && 0 <= pieceLocation.row < 8
    requires forall j :: 0 <= j < |searchSpaces| ==> 0 <= searchSpaces[j] < 8
    ensures captured == CaptureAlong(grid, team, RowCells(pieceLocation.row, searchSpaces))
  {
    ghost var cells := RowCells(pieceLocation.row, searchSpaces);
    var potentialCapture := [];
    var k := 0;
    while k < |searchSpaces|
      invariant 0 <= k <= |searchSpaces|
      invariant potentialCapture == cells[..k]
      invariant forall j :: 0 <= j < k ==> team * At(grid, cells[j]) < 0
    {
      var i := searchSpaces[k];
      var pieceType := team * grid[pieceLocation.row][i];
      if pieceType < 0 {
        potentialCapture := potentialCapture + [Coord(pieceLocation.row, i)];
      } else if pieceType == 0 {
        ScanSkipsEnemies(grid, team, cells, k);
        return [];
      } else {
        ScanSkipsEnemies(grid, team, cells, k);
        assert potentialCapture + [] == potentialCapture;
        return potentialCapture;
      }
      k := k + 1;
    }
    ScanSkipsEnemies(grid, team, cells, k);
    captured := [];
  }

  /** What landing on `loc` captures for `team`: the four directions north,
      south, west, east, concatenated in that order. */
  function Captures(grid: Board, loc: Coord, team: int): seq<Coord>
    requires Wf(grid) && OnBoard(loc)
  {
    CaptureAlong(grid, team, Ray(loc, North)) + CaptureAlong(grid, team, Ray(loc, South)) +
    CaptureAlong(grid, team, Ray(loc, West)) + CaptureAlong(grid, team, Ray(loc, East))
  }

  /** find_captures: the four directional checks over the engine's ranges. */
  method FindCaptures(grid: Board, pieceLocation: Coord, team: int) returns (captured: seq<Coord>)
    requires Wf(grid) && OnBoard(pieceLocation)
    ensures captured == Captures(grid, pieceLocation, team)
  {
    var north := CheckCaptureDirectionNS(grid, pieceLocation, team, RangeDown(pieceLocation.row - 1));
    var south := CheckCaptureDirectionNS(grid, pieceLocation, team, RangeUp(pieceLocation.row + 1));
    var west := CheckCaptureDirectionEW(grid, pieceLocation, team, RangeDown(pieceLocation.col - 1));
    var east := CheckCaptureDirectionEW(grid, pieceLocation, team, RangeUp(pieceLocation.col + 1));
    assert north == CaptureAlong(grid, team, Ray(pieceLocation, North));
    assert south == CaptureAlong(grid, team, Ray(pieceLocation, South));
    assert west == CaptureAlong(grid, team, Ray(pieceLocation, West));
    assert east == CaptureAlong(grid, team, Ray(pieceLocation, East));
    captured := north + south + west + east;
  }

  /** A run of k >= 1 enemy pieces starts next to `loc` in direction `d`, and
      the square after it is on the board and holds a friendly piece. */
  ghost predicate FlankedRun(b: Board, loc: Coord, team: int, d: Direction, k: int)
    requires Wf(b)
  {
    1 <= k &&
    (forall j :: 1 <= j <= k + 1 ==> OnBoard(Shift(loc, d, j))) &&
    (forall j :: 1 <= j <= k ==> team * At(b, Shift(loc, d, j)) < 0) &&
    team * At(b, Shift(loc, d, k + 1)) > 0
  }

  /** One direction captures exactly a flanked run: something is captured if
      and only if such a run exists, and then it is the run, nearest first.
      A run that stops at an empty square or at the edge captures nothing. */
  lemma DirectionCaptures(b: Board, loc: Coord, team: int, d: Direction)
    requires Wf(b) && OnBoard(loc)
    ensures var r := CaptureAlong(b, team, Ray(loc, d));
      (r != [] <==> exists k :: FlankedRun(b, loc, team, d, k)) &&
      (r != [] ==> FlankedRun(b, loc, team, d, |r|) &&
                   forall j :: 0 <= j < |r| ==> r[j] == Shift(loc, d, j + 1))
  {
    var cells := Ray(loc, d);
    ScanCases(b, team, cells);
    var r := CaptureAlong(b, team, cells);
    if r != [] {
      var run := Scan(b, team, cells).run;
      assert Closes(b, team, cells, |run|);
      assert FlankedRun(b, loc, team, d, |r|) by {
        forall j | 1 <= j <= |r| + 1
          ensures OnBoard(Shift(loc, d, j))
        {
          assert cells[j - 1] == Shift(loc, d, j);
        }
        forall j | 1 <= j <= |r|
          ensures team * At(b, Shift(loc, d, j)) < 0
        {
          assert cells[j - 1] == Shift(loc, d, j);
        }
        assert cells[|r|] == Shift(loc, d, |r| + 1);
      }
    }
    if k :| FlankedRun(b, loc, team, d, k) {
      assert 0 <= k < |cells| by {
        assert OnBoard(Shift(loc, d, k + 1));
      }
      forall j | 0 <= j < k
        ensures team * At(b, cells[j]) < 0
      {
        assert cells[j] == Shift(loc, d, j + 1);
      }
      assert cells[k] == Shift(loc, d, k + 1);
      assert Closes(b, team, cells, k);
      var run := Scan(b, team, cells).run;
      assert Closes(b, team, cells, |run|);
      assert |run| == k;
    }
  }

  lemma CapturesOnBoard(grid: Board, loc: Coord, team: int)
    requires Wf(grid) && OnBoard(loc)
    ensures AllOnBoard(Captures(grid, loc, team))
  {
    CapturedAreEnemies(grid, loc, team);
  }

  /** Every captured square is on the board, holds an enemy piece from the
      point of view of `team`, and is not the landing square itself. */
  lemma CapturedAreEnemies(grid: Board, loc: Coord, team: int)
    requires Wf(grid) && OnBoard(loc)
    ensures forall c :: c in Captures(grid, loc, team) ==>
      OnBoard(c) && team * At(grid, c) < 0 && c != loc
  {
    forall d: Direction
      ensures forall c :: c in CaptureAlong(grid, team, Ray(loc, d)) ==>
        OnBoard(c) && team * At(grid, c) < 0 && c != loc
    {
      DirectionCaptures(grid, loc, team, d);
      var r := CaptureAlong(grid, team, Ray(loc, d));
      forall c | c in r
        ensures OnBoard(c) && team * At(grid, c) < 0 && c != loc
      {
        var j :| 0 <= j < |r| && r[j] == c;
        assert FlankedRun(grid, loc, team, d, |r|);
        assert c == Shift(loc, d, j + 1);
      }
    }
  }
}
