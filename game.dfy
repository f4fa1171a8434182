/** The game interface the self-play trainer drives: the size of the action
    space, the mask of valid actions, applying an action, the end-of-game
    test, the canonical (current player positive) form of a board and the
    symmetries of a training example. */
module PetteiaGame {
  import opened Grid
  import opened MoveGeneration
  import opened Codec
  import opened Update

  /** getActionSize: 14 actions for each of the 64 source squares. */
  function GetActionSize(): nat { 64 * 14 }

  /** Every move the codec is meant for encodes below the action size. */
  lemma ActionSpaceHoldsEncoding(m: Move)
    requires IsStep(m)
    ensures 0 <= ConvertMoveToAction(m) < GetActionSize()
  {
    EncodeRange(m);
  }

  /** Every action below the action size decodes to a move the codec is
      meant for. */
  lemma ActionSpaceDecodes(a: int)
    requires 0 <= a < GetActionSize()
    ensures IsStep(ConvertActionToMove(a))
  {
    DecodeRange(a);
  }

  /** The actions the moves of `ms` encode to. */
  function Actions(ms: seq<Move>): set<int>
  {
    set m | m in ms :: ConvertMoveToAction(m)
  }

  /** The mask with 1 on the action of every move of `ms` and 0 elsewhere. */
  function MaskOf(ms: seq<Move>): seq<int>
  {
    seq(GetActionSize(), a => if a in Actions(ms) then 1 else 0)
  }

  /** The mask getValidMoves returns: 1 on the action of every move
      generate_moves lists, 0 elsewhere. */
  function ValidMask(b: Board, player: int): seq<int>
    requires Wf(b)
  {
    MaskOf(Moves(b, player))
  }

  lemma ActionsPrefix(ms: seq<Move>, i: int)
    requires 0 <= i < |ms|
    ensures Actions(ms[..i + 1]) == Actions(ms[..i]) + {ConvertMoveToAction(ms[i])}
  {
    assert ms[..i + 1] == ms[..i] + [ms[i]];
  }

  /** Marking one more move sets its action, and only that one, to 1. */
  lemma MaskOfPrefix(ms: seq<Move>, i: int)
    requires 0 <= i < |ms| && 0 <= ConvertMoveToAction(ms[i]) < GetActionSize()
    ensures MaskOf(ms[..i + 1]) == MaskOf(ms[..i])[ConvertMoveToAction(ms[i]) := 1]
  {
    ActionsPrefix(ms, i);
  }

  /** getValidMoves: start from all zeros and set the action of each
      generated move to 1. */
  method GetValidMoves(board: Board, player: int) returns (valid: seq<int>)
    requires Wf(board)
    ensures valid == ValidMask(board, player)
  {
    var generatedMoves := GenerateMoves(board, player);
    valid := seq(GetActionSize(), _ => 0);
    assert valid == MaskOf(generatedMoves[..0]);
    for i := 0 to |generatedMoves|
      invariant valid == MaskOf(generatedMoves[..i])
    {
      var move := generatedMoves[i];
      assert IsSlide(board, player, move);
      ActionSpaceHoldsEncoding(move);
      var actionPosition := ConvertMoveToAction(move);
      MaskOfPrefix(generatedMoves, i);
      valid := valid[actionPosition := 1];
    }
    assert generatedMoves[..|generatedMoves|] == generatedMoves;
  }

  /** An action is marked valid exactly when some legal slide of `player`
      encodes to it. */
  lemma MaskMarksLegalSlides(b: Board, player: int, a: int)
    requires Wf(b) && 0 <= a < GetActionSize()
    ensures ValidMask(b, player)[a] == 1 <==>
      exists m :: IsSlide(b, player, m) && ConvertMoveToAction(m) == a
    ensures ValidMask(b, player)[a] == 0 || ValidMask(b, player)[a] == 1
  {
    MovesCharacterised(b, player);
  }

  /** The actions of the slides in `ms` are pairwise different, so there are
      as many of them as there are moves. */
  lemma {:induction false} ActionsCount(ms: seq<Move>)
    requires Distinct(ms) && forall m :: m in ms ==> IsStep(m)
    ensures |Actions(ms)| == |ms|
  {
    if ms != [] {
      var n := |ms| - 1;
      var init := ms[..n];
      assert Distinct(init);
      ActionsCount(init);
      ActionsPrefix(ms, n);
      assert ms[..n + 1] == ms;
      forall m | m in init
        ensures ConvertMoveToAction(m) != ConvertMoveToAction(ms[n])
      {
        var j :| 0 <= j < n && init[j] == m;
        assert ms[j] == m;
        EncodeInjective(m, ms[n]);
      }
    }
  }

  /** The actions marked valid. */
  function Marked(mask: seq<int>): set<int>
  {
    set a | 0 <= a < |mask| && mask[a] == 1
  }

  /** No two generated moves share an action, so the mask has exactly one
      valid action per move generate_moves lists. */
  lemma MaskCountsMoves(b: Board, player: int)
    requires Wf(b)
    ensures |Marked(ValidMask(b, player))| == |Moves(b, player)|
  {
    var ms := Moves(b, player);
    MovesCharacterised(b, player);
    forall m | m in ms ensures IsStep(m) && 0 <= ConvertMoveToAction(m) < GetActionSize() {
      ActionSpaceHoldsEncoding(m);
    }
    assert Marked(ValidMask(b, player)) == Actions(ms);
    ActionsCount(ms);
  }

  /** In the opening position the first player has 48 valid actions, among
      them 844, the piece on (7, 4) advancing to (4, 4). */
  lemma InitialMask(b: Board)
    requires IsInitial(b)
    ensures |Marked(ValidMask(b, 1))| == 48
    ensures ValidMask(b, 1)[844] == 1
  {
    InitialMoves(b);
    MaskCountsMoves(b, 1);
    InitialAdvance(b);
    assert ConvertMoveToAction(Move(Coord(7, 4), Coord(4, 4))) == 844;
  }

  /** A slide that ends more than one square past its source still leaves a
      legal slide when it stops one square short. */
  lemma ShortenedSlide(b: Board, player: int, m: Move)
    requires Wf(b) && IsSlide(b, player, m)
    requires if m.start.row != m.end.row then m.end.row > m.start.row + 1 else m.end.col > m.start.col + 1
    ensures IsSlide(b, player, Move(m.start, ShortOfEnd(m)))
  {
    var e := ShortOfEnd(m);
    if m.start.row != m.end.row {
      assert b[e.row][e.col] == 0;
    } else {
      assert b[e.row][e.col] == 0;
    }
  }

  /** Every action marked valid decodes to a legal slide of `player`: the
      marked move itself, or that move stopped one square short when the
      decoder does not invert the encoder. So applying a valid action never
      fails the ownership check. */
  lemma ValidActionsDecodeToSlides(b: Board, player: int, a: int)
    requires Wf(b) && 0 <= a < GetActionSize()
    requires ValidMask(b, player)[a] == 1
    ensures IsSlide(b, player, ConvertActionToMove(a))
    ensures At(b, ConvertActionToMove(a).start) == player
  {
    MaskMarksLegalSlides(b, player, a);
    var m :| IsSlide(b, player, m) && ConvertMoveToAction(m) == a;
    EncodeThenDecode(m);
    if ConvertActionToMove(a) != m {
      ShortenedSlide(b, player, m);
    }
  }

  /** What the decoder costs a player, in the opening position: the second
      player's slide (0,0) -> (6,0) is legal, but its action 5 decodes to the
      shorter slide (0,0) -> (5,0), and action 6, the only one that decodes
      to it, is not valid because it is the action of (0,0) -> (7,0), which
      row 7 blocks. */
  lemma OpeningSlideUnplayable(b: Board)
    requires IsInitial(b)
    ensures IsSlide(b, -1, Move(Coord(0, 0), Coord(6, 0)))
    ensures ConvertMoveToAction(Move(Coord(0, 0), Coord(6, 0))) == 5
    ensures ConvertActionToMove(5) == Move(Coord(0, 0), Coord(5, 0))
    ensures ConvertActionToMove(6) == Move(Coord(0, 0), Coord(6, 0))
    ensures ValidMask(b, -1)[6] == 0
    ensures forall a :: 0 <= a < GetActionSize() && ValidMask(b, -1)[a] == 1 ==>
      ConvertActionToMove(a) != Move(Coord(0, 0), Coord(6, 0))
  {
    JoinAction(0, 0, 5);
    JoinAction(0, 0, 6);
    var blocked := Move(Coord(0, 0), Coord(7, 0));
    assert ConvertMoveToAction(blocked) == 6;
    forall m | IsSlide(b, -1, m)
      ensures ConvertMoveToAction(m) != 6
    {
      EncodeInjective(m, blocked);
      assert At(b, blocked.end) == 1;
    }
    MaskMarksLegalSlides(b, -1, 6);
    forall a | 0 <= a < GetActionSize() && ValidMask(b, -1)[a] == 1
      ensures ConvertActionToMove(a) != Move(Coord(0, 0), Coord(6, 0))
    {
      DecodeThenEncode(a);
    }
  }

  /** With the intended decoder the valid actions and the legal slides match
      one to one: the action of every legal slide is valid and decodes back
      to that slide, and every valid action decodes to a legal slide. */
  lemma IntendedDecoderPlaysEverySlide(b: Board, player: int, m: Move, a: int)
    requires Wf(b)
    ensures IsSlide(b, player, m) ==>
      var action := ConvertMoveToAction(m);
      0 <= action < GetActionSize() && ValidMask(b, player)[action] == 1 &&
      ConvertActionToMoveIntended(action) == m
    ensures 0 <= a < GetActionSize() && ValidMask(b, player)[a] == 1 ==>
      IsSlide(b, player, ConvertActionToMoveIntended(a))
  {
    if IsSlide(b, player, m) {
      EncodeRange(m);
      MaskMarksLegalSlides(b, player, ConvertMoveToAction(m));
      IntendedEncodeThenDecode(m);
    }
    if 0 <= a < GetActionSize() && ValidMask(b, player)[a] == 1 {
      MaskMarksLegalSlides(b, player, a);
      var s :| IsSlide(b, player, s) && ConvertMoveToAction(s) == a;
      IntendedEncodeThenDecode(s);
    }
  }

  /** getNextState: decode the action, apply it for `player` and hand the
      turn to the other player. An action whose source square does not hold
      `player` fails as update_board does. */
  method GetNextState(board: Board, player: int, action: int) returns (r: Result<(Board, int)>)
    requires Wf(board) && 0 <= action < GetActionSize()
    ensures var move := ConvertActionToMove(action);
      IsStep(move) && (r.Ok? <==> At(board, move.start) == player)
    ensures r.Ok? ==> r.value == (Applied(board, ConvertActionToMove(action)), -player)
    ensures r.Err? ==> r.error == OwnershipViolation
  {
    ActionSpaceDecodes(action);
    var move := ConvertActionToMove(action);
    var newBoard := UpdateBoard(board, player, move);
    if newBoard.Err? {
      return Err(newBoard.error);
    }
    r := Ok((newBoard.value, -player));
  }

  /** The squares whose value is positive, as (board > 0) marks them. */
  function PositiveSquares(b: Board): set<Coord>
    requires Wf(b)
  {
    set r, c | 0 <= r < 8 && 0 <= c < 8 && b[r][c] > 0 :: Coord(r, c)
  }

  /** What getGameEnded returns: -player once at most one positive piece is
      left or `player` has no legal slide, 0 while the game goes on. */
  ghost function Outcome(b: Board, player: int): int
    requires Wf(b)
  {
    if |PositiveSquares(b)| <= 1 || !(exists m :: IsSlide(b, player, m)) then -player else 0
  }

  /** getGameEnded: count the positive pieces, then look for any legal
      move. */
  method GetGameEnded(board: Board, player: int) returns (r: int)
    requires Wf(board)
    ensures r == Outcome(board, player)
  {
    if |PositiveSquares(board)| <= 1 {
      return -player;
    }
    var moves := GenerateMoves(board, player);
    if |moves| == 0 {
      return -player;
    }
    assert IsSlide(board, player, moves[0]);
    return 0;
  }

  /** getCanonicalForm: the board multiplied by the player. */
  function GetCanonicalForm(board: Board, player: int): (r: Board)
    requires Wf(board)
    ensures Wf(r)
  {
    seq(8, i requires 0 <= i < 8 => seq(8, j requires 0 <= j < 8 => board[i][j] * player))
  }

  /** The first player's canonical form is the board itself, and for either
      player taking the canonical form twice gives the board back. */
  lemma CanonicalInvolution(b: Board, player: int)
    requires Wf(b) && (player == 1 || player == -1)
    ensures GetCanonicalForm(GetCanonicalForm(b, player), player) == b
    ensures player == 1 ==> GetCanonicalForm(b, player) == b
  {
    var c := GetCanonicalForm(b, player);
    var cc := GetCanonicalForm(c, player);
    forall i | 0 <= i < 8 ensures cc[i] == b[i] {
      forall j | 0 <= j < 8 ensures cc[i][j] == b[i][j] {
        assert cc[i][j] == b[i][j] * player * player;
      }
    }
    if player == 1 {
      forall i | 0 <= i < 8 ensures c[i] == b[i] {
      }
    }
  }

  /** In the canonical form the player to move is the first player: its
      legal slides are exactly the player's slides on the original board. */
  lemma CanonicalSlides(b: Board, player: int, m: Move)
    requires Wf(b) && (player == 1 || player == -1)
    ensures IsSlide(GetCanonicalForm(b, player), 1, m) <==> IsSlide(b, player, m)
  {
    var c := GetCanonicalForm(b, player);
    if OnBoard(m.start) && OnBoard(m.end) {
      assert At(c, m.start) == 1 <==> At(b, m.start) == player;
      assert At(c, m.end) == 0 <==> At(b, m.end) == 0;
      assert PathClear(c, m) <==> PathClear(b, m) by {
        forall r, k | 0 <= r < 8 && 0 <= k < 8 ensures c[r][k] == 0 <==> b[r][k] == 0 {
        }
      }
    }
  }

  /** The pieces on `player`'s side: the squares whose sign is the
      player's. */
  function SideSquares(b: Board, player: int): set<Coord>
    requires Wf(b)
  {
    set r, c | 0 <= r < 8 && 0 <= c < 8 && b[r][c] * player > 0 :: Coord(r, c)
  }

  /** Asked about the canonical form as the first player, getGameEnded says
      the player to move has lost exactly when that player is down to at most
      one piece or has no legal slide. */
  lemma CanonicalOutcome(b: Board, player: int)
    requires Wf(b) && (player == 1 || player == -1)
    ensures Outcome(GetCanonicalForm(b, player), 1) == -1 <==>
      |SideSquares(b, player)| <= 1 || !(exists m :: IsSlide(b, player, m))
    ensures Outcome(GetCanonicalForm(b, player), 1) == 0 || Outcome(GetCanonicalForm(b, player), 1) == -1
  {
    var c := GetCanonicalForm(b, player);
    assert PositiveSquares(c) == SideSquares(b, player);
    forall m ensures IsSlide(c, 1, m) <==> IsSlide(b, player, m) {
      CanonicalSlides(b, player, m);
    }
  }

  /** `pi` cut into `n` rows of `cols` values each, in order. */
  function Reshape(pi: seq<real>, n: nat, cols: nat): (rows: seq<seq<real>>)
    requires |pi| == n * cols
    ensures |rows| == n && forall i :: 0 <= i < n ==> |rows[i]| == cols
  {
    if n == 0 then [] else Reshape(pi[..(n - 1) * cols], n - 1, cols) + [pi[(n - 1) * cols..]]
  }

  /** The rows laid end to end. */
  function Ravel(rows: seq<seq<real>>): seq<real>
  {
    if rows == [] then [] else Ravel(rows[..|rows| - 1]) + rows[|rows| - 1]
  }

  /** Reshaping into rows and laying them end to end again gives back the
      same values in the same order. */
  lemma {:induction false} RavelReshape(pi: seq<real>, n: nat, cols: nat)
    requires |pi| == n * cols
    ensures Ravel(Reshape(pi, n, cols)) == pi
  {
    if n > 0 {
      var k := (n - 1) * cols;
      assert n * cols == k + cols;
      var rows := Reshape(pi, n, cols);
      RavelReshape(pi[..k], n - 1, cols);
      assert rows[..n - 1] == Reshape(pi[..k], n - 1, cols);
      assert pi[..k] + pi[k..] == pi;
    }
  }

  /** getSymmetries: the policy must have one entry per action; it is
      reshaped to one row per source square and flattened again, and the
      board with that policy is the only symmetry. */
  function GetSymmetries(board: Board, pi: seq<real>): (r: Result<seq<(Board, seq<real>)>>)
    ensures r.Err? <==> |pi| != GetActionSize()
    ensures r.Err? ==> r.error == PolicySizeMismatch
    ensures r.Ok? ==> r.value == [(board, pi)]
  {
    if |pi| != GetActionSize() then Err(PolicySizeMismatch)
    else
      RavelReshape(pi, 64, 14);
      Ok([(board, Ravel(Reshape(pi, 64, 14)))])
  }
}
