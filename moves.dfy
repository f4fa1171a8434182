/** Move generation: every piece of the mover slides like a rook, any number
    of empty squares north, south, west or east, and stops before the first
    occupied square. */
module MoveGeneration {
  import opened Grid
  import opened Ranges
  import opened CaptureRule

  function Min(a: int, b: int): int { if a < b then a else b }
  function Max(a: int, b: int): int { if a < b then b else a }

  /** Every square strictly between the two ends of `m`, on the line they
      share, is empty. */
  predicate PathClear(b: Board, m: Move)
    requires Wf(b) && OnBoard(m.start) && OnBoard(m.end)
  {
    (m.start.row == m.end.row ==>
      forall c :: Min(m.start.col, m.end.col) < c < Max(m.start.col, m.end.col) ==> b[m.start.row][c] == 0) &&
    (m.start.col == m.end.col ==>
      forall r :: Min(m.start.row, m.end.row) < r < Max(m.start.row, m.end.row) ==> b[r][m.start.col] == 0)
  }

  /** A legal slide for `player`, stated on the squares alone: it starts on
      one of the player's pieces, ends on an empty square of the board,
      changes exactly one coordinate and passes only over empty squares. */
  predicate IsSlide(b: Board, player: int, m: Move)
    requires Wf(b)
  {
    IsStep(m) && At(b, m.start) == player && At(b, m.end) == 0 && PathClear(b, m)
  }

  predicate Distinct<T(==)>(s: seq<T>)
  {
    forall i, j :: 0 <= i < j < |s| ==> s[i] != s[j]
  }

  /** The moves one direction contributes: a move to each square of `cells`
      in turn, up to (not including) the first occupied one. */
  function SlideTargets(b: Board, piece: Coord, cells: seq<Coord>): seq<Move>
    requires Wf(b) && AllOnBoard(cells)
  {
    if cells == [] then []
    else if At(b, cells[0]) == 0 then [Move(piece, cells[0])] + SlideTargets(b, piece, cells[1..])
    else []
  }

  /** `SlideTargets` moves to the longest run of empty squares at the front
      of `cells`, in order. */
  lemma {:induction false} SlideTargetsSpec(b: Board, piece: Coord, cells: seq<Coord>)
    requires Wf(b) && AllOnBoard(cells)
    ensures var s := SlideTargets(b, piece, cells);
      |s| <= |cells| &&
      (forall j :: 0 <= j < |s| ==> s[j] == Move(piece, cells[j]) && At(b, cells[j]) == 0) &&
      (|s| < |cells| ==> At(b, cells[|s|]) != 0)
  {
    if cells != [] && At(b, cells[0]) == 0 {
      var rest := cells[1..];
      assert AllOnBoard(rest);
      SlideTargetsSpec(b, piece, rest);
      var s := SlideTargets(b, piece, cells);
      forall j | 0 <= j < |s|
        ensures s[j] == Move(piece, cells[j]) && At(b, cells[j]) == 0
      {
        if j > 0 { assert cells[j] == rest[j - 1]; }
      }
      if |s| < |cells| { assert cells[|s|] == rest[|s| - 1]; }
    }
  }

  /** The moves of the piece on `piece`: north, south, west, east. */
  function PieceMoves(b: Board, piece: Coord): seq<Move>
    requires Wf(b) && OnBoard(piece)
  {
    SlideTargets(b, piece, Ray(piece, North)) + SlideTargets(b, piece, Ray(piece, South)) +
    SlideTargets(b, piece, Ray(piece, West)) + SlideTargets(b, piece, Ray(piece, East))
  }

  /** The squares holding exactly `player` among the first `n` in row-major
      order (what numpy's nonzero gives for `board == player`). */
  function PositionsBelow(b: Board, player: int, n: nat): (ps: seq<Coord>)
    requires Wf(b) && n <= 64
    ensures forall j :: 0 <= j < |ps| ==> OnBoard(ps[j]) && At(b, ps[j]) == player && Index(ps[j]) < n
    ensures forall i, j :: 0 <= i < j < |ps| ==> Index(ps[i]) < Index(ps[j])
  {
    if n == 0 then []
    else
      var c := Coord((n - 1) / 8, (n - 1) % 8);
      PositionsBelow(b, player, n - 1) + (if b[c.row][c.col] == player then [c] else [])
  }

  function Positions(b: Board, player: int): seq<Coord>
    requires Wf(b)
  {
    PositionsBelow(b, player, 64)
  }

  /** Every square holding `player` is listed. */
  lemma {:induction false} PositionsComplete(b: Board, player: int, n: nat, c: Coord)
    requires Wf(b) && n <= 64
    requires OnBoard(c) && At(b, c) == player && Index(c) < n
    ensures c in PositionsBelow(b, player, n)
  {
    if Index(c) == n - 1 {
      assert c == Coord((n - 1) / 8, (n - 1) % 8);
    } else {
      PositionsComplete(b, player, n - 1, c);
    }
  }

  /** The moves of the pieces on `ps`, piece after piece. */
  function MovesOf(b: Board, ps: seq<Coord>): seq<Move>
    requires Wf(b) && AllOnBoard(ps)
  {
    if ps == [] then [] else MovesOf(b, ps[..|ps| - 1]) + PieceMoves(b, ps[|ps| - 1])
  }

  /** generate_moves, as a value: the moves of every piece of `player`, the
      pieces in row-major order. */
  function Moves(b: Board, player: int): seq<Move>
    requires Wf(b)
  {
    MovesOf(b, Positions(b, player))
  }

  /** One of generate_moves' four inner loops: walk `cells` outward from the
      piece, offering a move to every empty square, and stop at the first
      occupied one. */
  method SlideAlong(board: Board, piece: Coord, cells: seq<Coord>) returns (moves: seq<Move>)
    requires Wf(board) && AllOnBoard(cells)
    ensures moves == SlideTargets(board, piece, cells)
  {
    moves := [];
    var i := 0;
    while i < |cells|
      invariant 0 <= i <= |cells|
      invariant SlideTargets(board, piece, cells) == moves + SlideTargets(board, piece, cells[i..])
    {
      var target := cells[i];
      if board[target.row][target.col] == 0 {
        assert cells[i..][1..] == cells[i + 1..];
        moves := moves + [Move(piece, target)];
        i := i + 1;
      } else {
        break;
      }
    }
    assert SlideTargets(board, piece, cells[i..]) == [];
  }

  /** generate_moves: for each square holding `player`, in row-major order,
      the moves north, south, west and east. The result lists every legal
      slide of `player`, each exactly once, and nothing else. */
  method GenerateMoves(board: Board, player: int) returns (possibleMoves: seq<Move>)
    requires Wf(board)
    ensures possibleMoves == Moves(board, player)
    ensures forall m :: m in possibleMoves <==> IsSlide(board, player, m)
    ensures Distinct(possibleMoves)
  {
    var posPositions := Positions(board, player);
    assert AllOnBoard(posPositions);
    possibleMoves := [];
    var k := 0;
    while k < |posPositions|
      invariant 0 <= k <= |posPositions|
      invariant AllOnBoard(posPositions[..k])
      invariant possibleMoves == MovesOf(board, posPositions[..k])
    {
      var piece := posPositions[k];
      var north := SlideAlong(board, piece, Ray(piece, North));
      var south := SlideAlong(board, piece, Ray(piece, South));
      var west := SlideAlong(board, piece, Ray(piece, West));
      var east := SlideAlong(board, piece, Ray(piece, East));
      MovesOfPrefix(board, posPositions, k);
      possibleMoves := possibleMoves + (north + south + west + east);
      k := k + 1;
    }
    assert posPositions[..k] == posPositions;
    MovesCharacterised(board, player);
  }

  /** The moves of the first `k + 1` pieces extend those of the first `k`. */
  lemma MovesOfPrefix(b: Board, ps: seq<Coord>, k: int)
    requires Wf(b) && AllOnBoard(ps) && 0 <= k < |ps|
    ensures AllOnBoard(ps[..k]) && AllOnBoard(ps[..k + 1])
    ensures MovesOf(b, ps[..k + 1]) == MovesOf(b, ps[..k]) + PieceMoves(b, ps[k])
  {
    assert AllOnBoard(ps[..k + 1]);
    assert ps[..k + 1][..k] == ps[..k];
  }

  /** The direction a move with exactly one changed coordinate goes in. */
  function DirectionOf(m: Move): Direction
  {
    if m.start.col == m.end.col then (if m.end.row < m.start.row then North else South)
    else (if m.end.col < m.start.col then West else East)
  }

  /** How many squares a move with exactly one changed coordinate covers. */
  function Distance(m: Move): int
  {
    if m.start.col == m.end.col then Max(m.start.row, m.end.row) - Min(m.start.row, m.end.row)
    else Max(m.start.col, m.end.col) - Min(m.start.col, m.end.col)
  }

  /** A walk of k empty squares from one of the player's pieces ends in a
      legal slide. */
  lemma RayMoveIsSlide(b: Board, player: int, s: Coord, d: Direction, k: int)
    requires Wf(b) && OnBoard(s) && At(b, s) == player
    requires 1 <= k <= Reach(s, d)
    requires forall i :: 1 <= i <= k ==> OnBoard(Shift(s, d, i)) && At(b, Shift(s, d, i)) == 0
    ensures IsSlide(b, player, Move(s, Shift(s, d, k)))
  {
    assert OnBoard(Shift(s, d, k)) && At(b, Shift(s, d, k)) == 0;
    match d
    case North =>
      forall r | s.row - k < r < s.row ensures b[r][s.col] == 0 {
        assert Shift(s, d, s.row - r) == Coord(r, s.col);
      }
    case South =>
      forall r | s.row < r < s.row + k ensures b[r][s.col] == 0 {
        assert Shift(s, d, r - s.row) == Coord(r, s.col);
      }
    case West =>
      forall c | s.col - k < c < s.col ensures b[s.row][c] == 0 {
        assert Shift(s, d, s.col - c) == Coord(s.row, c);
      }
    case East =>
      forall c | s.col < c < s.col + k ensures b[s.row][c] == 0 {
        assert Shift(s, d, c - s.col) == Coord(s.row, c);
      }
  }

  /** Conversely, every legal slide is such a walk, in its own direction. */
  lemma SlideIsRayMove(b: Board, player: int, m: Move)
    requires Wf(b) && IsSlide(b, player, m)
    ensures var d, k := DirectionOf(m), Distance(m);
      1 <= k <= Reach(m.start, d) && m.end == Shift(m.start, d, k) &&
      forall i :: 1 <= i <= k ==> OnBoard(Shift(m.start, d, i)) && At(b, Shift(m.start, d, i)) == 0
  {
    var s, d, k := m.start, DirectionOf(m), Distance(m);
    forall i | 1 <= i <= k
      ensures OnBoard(Shift(s, d, i)) && At(b, Shift(s, d, i)) == 0
    {
      if i == k {
        assert Shift(s, d, i) == m.end;
      }
    }
  }

  /** Each direction's moves leave from `s`, go in that direction, and never
      repeat. */
  lemma SlideTargetsShape(b: Board, s: Coord, d: Direction)
    requires Wf(b) && OnBoard(s)
    ensures var t := SlideTargets(b, s, Ray(s, d));
      Distinct(t) && forall m :: m in t ==> m.start == s && DirectionOf(m) == d
  {
    var cells := Ray(s, d);
    SlideTargetsSpec(b, s, cells);
    var t := SlideTargets(b, s, cells);
    forall i, j | 0 <= i < j < |t| ensures t[i] != t[j] {
      assert t[i].end == Shift(s, d, i + 1) && t[j].end == Shift(s, d, j + 1);
    }
    forall m | m in t ensures m.start == s && DirectionOf(m) == d {
      var j :| 0 <= j < |t| && t[j] == m;
      assert m.end == Shift(s, d, j + 1);
    }
  }

  lemma DistinctConcat<T>(a: seq<T>, b: seq<T>)
    requires Distinct(a) && Distinct(b)
    requires forall x :: x in a ==> x !in b
    ensures Distinct(a + b)
  {
    var c := a + b;
    forall i, j | 0 <= i < j < |c| ensures c[i] != c[j] {
      if i < |a| && j >= |a| {
        assert c[i] in a && c[j] == b[j - |a|];
      } else if i >= |a| {
        assert c[i] == b[i - |a|] && c[j] == b[j - |a|];
      }
    }
  }

  lemma PieceMovesShape(b: Board, s: Coord)
    requires Wf(b) && OnBoard(s)
    ensures Distinct(PieceMoves(b, s))
    ensures forall m :: m in PieceMoves(b, s) ==> m.start == s
  {
    var n, so, w, e := SlideTargets(b, s, Ray(s, North)), SlideTargets(b, s, Ray(s, South)),
                       SlideTargets(b, s, Ray(s, West)), SlideTargets(b, s, Ray(s, East));
    SlideTargetsShape(b, s, North);
    SlideTargetsShape(b, s, South);
    SlideTargetsShape(b, s, West);
    SlideTargetsShape(b, s, East);
    DistinctConcat(n, so);
    DistinctConcat(n + so, w);
    DistinctConcat(n + so + w, e);
  }

  /** Every move of a piece of `player` in one direction is a legal slide. */
  lemma SlideTargetsSound(b: Board, player: int, s: Coord, d: Direction, m: Move)
    requires Wf(b) && OnBoard(s) && At(b, s) == player
    requires m in SlideTargets(b, s, Ray(s, d))
    ensures IsSlide(b, player, m)
  {
    var cells := Ray(s, d);
    SlideTargetsSpec(b, s, cells);
    var t := SlideTargets(b, s, cells);
    var j :| 0 <= j < |t| && t[j] == m;
    forall i | 1 <= i <= j + 1
      ensures OnBoard(Shift(s, d, i)) && At(b, Shift(s, d, i)) == 0
    {
      assert cells[i - 1] == Shift(s, d, i);
    }
    RayMoveIsSlide(b, player, s, d, j + 1);
  }

  /** Every move of a piece of `player` is a legal slide. */
  lemma PieceMovesSound(b: Board, player: int, s: Coord, m: Move)
    requires Wf(b) && OnBoard(s) && At(b, s) == player
    requires m in PieceMoves(b, s)
    ensures IsSlide(b, player, m)
  {
    if m in SlideTargets(b, s, Ray(s, North)) {
      SlideTargetsSound(b, player, s, North, m);
    } else if m in SlideTargets(b, s, Ray(s, South)) {
      SlideTargetsSound(b, player, s, South, m);
    } else if m in SlideTargets(b, s, Ray(s, West)) {
      SlideTargetsSound(b, player, s, West, m);
    } else {
      SlideTargetsSound(b, player, s, East, m);
    }
  }

  /** Every legal slide is among the moves of the piece it starts from. */
  lemma PieceMovesComplete(b: Board, player: int, m: Move)
    requires Wf(b) && IsSlide(b, player, m)
    ensures m in PieceMoves(b, m.start)
  {
    var s, d, k := m.start, DirectionOf(m), Distance(m);
    SlideIsRayMove(b, player, m);
    var cells := Ray(s, d);
    SlideTargetsSpec(b, s, cells);
    var t := SlideTargets(b, s, cells);
    forall i | 0 <= i < k
      ensures At(b, cells[i]) == 0
    {
      assert cells[i] == Shift(s, d, i + 1);
    }
    assert |t| >= k;
    assert t[k - 1] == Move(s, cells[k - 1]);
    assert cells[k - 1] == Shift(s, d, k);
  }

  /** A move is in the list of a sequence of pieces exactly when it is a
      move of one of those pieces. */
  lemma MovesOfMember(b: Board, ps: seq<Coord>, m: Move)
    requires Wf(b) && AllOnBoard(ps)
    ensures m in MovesOf(b, ps) <==> exists i :: 0 <= i < |ps| && m in PieceMoves(b, ps[i])
  {
    if m in MovesOf(b, ps) {
      MovesOfOwner(b, ps, m);
    }
    if i :| 0 <= i < |ps| && m in PieceMoves(b, ps[i]) {
      MovesOfIncludes(b, ps, i, m);
    }
  }

  lemma {:induction false} MovesOfOwner(b: Board, ps: seq<Coord>, m: Move)
    requires Wf(b) && AllOnBoard(ps) && m in MovesOf(b, ps)
    ensures exists i :: 0 <= i < |ps| && m in PieceMoves(b, ps[i])
  {
    var init := ps[..|ps| - 1];
    assert AllOnBoard(init);
    if m in MovesOf(b, init) {
      MovesOfOwner(b, init, m);
      var i :| 0 <= i < |init| && m in PieceMoves(b, init[i]);
      assert ps[i] == init[i];
    } else {
      assert m in PieceMoves(b, ps[|ps| - 1]);
    }
  }

  lemma {:induction false} MovesOfIncludes(b: Board, ps: seq<Coord>, i: int, m: Move)
    requires Wf(b) && AllOnBoard(ps) && 0 <= i < |ps| && m in PieceMoves(b, ps[i])
    ensures m in MovesOf(b, ps)
  {
    var init := ps[..|ps| - 1];
    assert AllOnBoard(init);
    if i < |init| {
      assert init[i] == ps[i];
      MovesOfIncludes(b, init, i, m);
      assert m in MovesOf(b, init);
    } else {
      assert i == |ps| - 1;
    }
  }

  lemma {:induction false} MovesOfDistinct(b: Board, ps: seq<Coord>)
    requires Wf(b) && AllOnBoard(ps)
    requires forall i, j :: 0 <= i < j < |ps| ==> Index(ps[i]) < Index(ps[j])
    ensures Distinct(MovesOf(b, ps))
    ensures forall m :: m in MovesOf(b, ps) ==> m.start in ps
  {
    if ps != [] {
      var init, last := ps[..|ps| - 1], ps[|ps| - 1];
      assert AllOnBoard(init);
      MovesOfDistinct(b, init);
      PieceMovesShape(b, last);
      assert last !in init by {
        forall i | 0 <= i < |init| ensures init[i] != last {
          assert init[i] == ps[i];
        }
      }
      DistinctConcat(MovesOf(b, init), PieceMoves(b, last));
    }
  }

  /** generate_moves is sound and complete: it lists exactly the legal
      slides of `player`, each once. */
  lemma MovesCharacterised(b: Board, player: int)
    requires Wf(b)
    ensures forall m :: m in Moves(b, player) <==> IsSlide(b, player, m)
    ensures Distinct(Moves(b, player))
  {
    MovesOfDistinct(b, Positions(b, player));
    forall m
      ensures m in Moves(b, player) <==> IsSlide(b, player, m)
    {
      if m in Moves(b, player) {
        MovesSound(b, player, m);
      }
      if IsSlide(b, player, m) {
        MovesComplete(b, player, m);
      }
    }
  }

  lemma MovesSound(b: Board, player: int, m: Move)
    requires Wf(b) && m in Moves(b, player)
    ensures IsSlide(b, player, m)
  {
    var ps := Positions(b, player);
    MovesOfOwner(b, ps, m);
    var i :| 0 <= i < |ps| && m in PieceMoves(b, ps[i]);
    PieceMovesSound(b, player, ps[i], m);
  }

  lemma MovesComplete(b: Board, player: int, m: Move)
    requires Wf(b) && IsSlide(b, player, m)
    ensures m in Moves(b, player)
  {
    var ps := Positions(b, player);
    PieceMovesComplete(b, player, m);
    PositionsComplete(b, player, 64, m.start);
    var i :| 0 <= i < |ps| && ps[i] == m.start;
    MovesOfIncludes(b, ps, i, m);
  }

  /** The opening position: 48 moves for the first player, six up each column
      from row 7, including the piece on (7, 4) moving to (4, 4). */
  lemma InitialMoves(b: Board)
    requires IsInitial(b)
    ensures |Moves(b, 1)| == 48
  {
    InitialPositionsBelow(b, 64);
    var ps := Positions(b, 1);
    forall j | 0 <= j < |ps| ensures InitialPieceMoveCount(b, ps[j]) {
      InitialPieceMoves(b, j);
    }
    InitialMovesOfCount(b, ps);
  }

  /** Among them, the piece on column 4 can advance three squares. */
  lemma InitialAdvance(b: Board)
    requires IsInitial(b)
    ensures Move(Coord(7, 4), Coord(4, 4)) in Moves(b, 1)
  {
    var m := Move(Coord(7, 4), Coord(4, 4));
    assert b[5][4] == 0 && b[6][4] == 0;
    assert PathClear(b, m);
    assert IsSlide(b, 1, m);
    MovesCharacterised(b, 1);
  }

  /** In the opening position only row 7 holds the first player's pieces. */
  lemma {:induction false} InitialPositionsBelow(b: Board, n: nat)
    requires IsInitial(b) && n <= 64
    ensures PositionsBelow(b, 1, n) == if n <= 56 then [] else seq(n - 56, j => Coord(7, j))
  {
    if n > 0 {
      InitialPositionsBelow(b, n - 1);
      var c := Coord((n - 1) / 8, (n - 1) % 8);
      if n <= 56 {
        assert c.row < 7;
      } else {
        assert c == Coord(7, n - 57);
      }
    }
  }

  ghost predicate InitialPieceMoveCount(b: Board, s: Coord)
    requires Wf(b)
  {
    OnBoard(s) && |PieceMoves(b, s)| == 6
  }

  /** A piece on row 7 of the opening position can only go north, to rows
      6 down to 1: row 0 is occupied and its neighbours on row 7 block it. */
  lemma InitialPieceMoves(b: Board, c: int)
    requires IsInitial(b) && 0 <= c < 8
    ensures InitialPieceMoveCount(b, Coord(7, c))
  {
    var s := Coord(7, c);
    var north := Ray(s, North);
    SlideTargetsSpec(b, s, north);
    forall i | 0 <= i < 6 ensures At(b, north[i]) == 0 {
      assert north[i] == Coord(6 - i, c);
    }
    assert north[6] == Coord(0, c);
    assert |SlideTargets(b, s, north)| == 6;
    assert Ray(s, South) == [];
    var west := Ray(s, West);
    SlideTargetsSpec(b, s, west);
    if west != [] { assert west[0] == Coord(7, c - 1); }
    var east := Ray(s, East);
    SlideTargetsSpec(b, s, east);
    if east != [] { assert east[0] == Coord(7, c + 1); }
  }

  lemma {:induction false} InitialMovesOfCount(b: Board, ps: seq<Coord>)
    requires Wf(b) && AllOnBoard(ps)
    requires forall j :: 0 <= j < |ps| ==> InitialPieceMoveCount(b, ps[j])
    ensures |MovesOf(b, ps)| == 6 * |ps|
  {
    if ps != [] {
      var init := ps[..|ps| - 1];
      assert AllOnBoard(init);
      assert forall j :: 0 <= j < |init| ==> init[j] == ps[j];
      InitialMovesOfCount(b, init);
      assert InitialPieceMoveCount(b, ps[|ps| - 1]);
    }
  }

  /** The squares among `locations`, in order, where find_captures finds
      something for `player` (capture_outcomes). */
  function CapturingSquares(board: Board, locations: seq<Coord>, player: int): seq<Coord>
    requires Wf(board) && AllOnBoard(locations)
  {
    if locations == [] then []
    else
      var rest := CapturingSquares(board, locations[1..], player);
      if Captures(board, locations[0], player) != [] then [locations[0]] + rest else rest
  }

  /** The destinations of `moveList`, in order (move_locations). */
  function Destinations(moveList: seq<Move>): (r: seq<Coord>)
    ensures |r| == |moveList| && forall j :: 0 <= j < |r| ==> r[j] == moveList[j].end
  {
    seq(|moveList|, j requires 0 <= j < |moveList| => moveList[j].end)
  }

  /** The moves of `moveList`, in order, whose destination is in `targets`. */
  function MovesLandingIn(moveList: seq<Move>, targets: seq<Coord>): seq<Move>
  {
    if moveList == [] then []
    else
      var rest := MovesLandingIn(moveList[1..], targets);
      if moveList[0].end in targets then [moveList[0]] + rest else rest
  }

  /** generate_capture_moves: the moves of `moveList` whose destination is one
      of the capturing destinations. Captures are looked for on `board` as it
      stands, before any move is made. */
  function GenerateCaptureMoves(board: Board, moveList: seq<Move>, player: int): seq<Move>
    requires Wf(board) && AllOnBoard(Destinations(moveList))
  {
    MovesLandingIn(moveList, CapturingSquares(board, Destinations(moveList), player))
  }

  /** The moves of `moveList`, in order, after which something is captured. */
  function CapturingMoves(board: Board, moveList: seq<Move>, player: int): seq<Move>
    requires Wf(board) && AllOnBoard(Destinations(moveList))
  {
    if moveList == [] then []
    else
      assert AllOnBoard(Destinations(moveList[1..])) by {
        forall j | 0 <= j < |moveList| - 1 ensures OnBoard(moveList[1..][j].end) {
          assert Destinations(moveList)[j + 1] == moveList[j + 1].end;
        }
      }
      var rest := CapturingMoves(board, moveList[1..], player);
      if Captures(board, moveList[0].end, player) != [] then [moveList[0]] + rest else rest
  }

  lemma {:induction false} CapturingSquaresMember(board: Board, locations: seq<Coord>, player: int, c: Coord)
    requires Wf(board) && AllOnBoard(locations)
    ensures c in CapturingSquares(board, locations, player) <==>
      c in locations && OnBoard(c) && Captures(board, c, player) != []
  {
    if locations != [] {
      assert AllOnBoard(locations[1..]);
      CapturingSquaresMember(board, locations[1..], player, c);
      assert locations == [locations[0]] + locations[1..];
    }
  }

  lemma {:induction false} LandingFilter(board: Board, moveList: seq<Move>, player: int, targets: seq<Coord>)
    requires Wf(board) && AllOnBoard(Destinations(moveList))
    requires forall j :: 0 <= j < |moveList| ==>
      (moveList[j].end in targets <==> Captures(board, moveList[j].end, player) != [])
    ensures MovesLandingIn(moveList, targets) == CapturingMoves(board, moveList, player)
  {
    if moveList != [] {
      var rest := moveList[1..];
      assert AllOnBoard(Destinations(rest)) by {
        forall j | 0 <= j < |rest| ensures OnBoard(rest[j].end) {
          assert Destinations(moveList)[j + 1] == rest[j].end;
        }
      }
      assert forall j :: 0 <= j < |rest| ==> rest[j] == moveList[j + 1];
      LandingFilter(board, rest, player, targets);
      assert Destinations(moveList)[0] == moveList[0].end;
    }
  }

  /** generate_capture_moves keeps exactly the moves of `moveList`, in their
      order, after which find_captures at the destination finds something. */
  lemma GenerateCaptureMovesFilters(board: Board, moveList: seq<Move>, player: int)
    requires Wf(board) && AllOnBoard(Destinations(moveList))
    ensures GenerateCaptureMoves(board, moveList, player) == CapturingMoves(board, moveList, player)
  {
    var locations := Destinations(moveList);
    var targets := CapturingSquares(board, locations, player);
    forall j | 0 <= j < |moveList|
      ensures moveList[j].end in targets <==> Captures(board, moveList[j].end, player) != []
    {
      CapturingSquaresMember(board, locations, player, moveList[j].end);
      assert locations[j] == moveList[j].end;
    }
    LandingFilter(board, moveList, player, targets);
  }
}
