# Petteia rules engine

A Dafny model of the rules engine of an AlphaZero-style Petteia player,
`petteia/PetteiaGame.py`. Petteia is played on an 8x8 board. Each side starts
with a full back row and moves its pieces like rooks, any number of empty
squares along a row or a column. An enemy piece (or a contiguous line of
them) is captured when the moving piece closes it between itself and
another friendly piece.

The engine keeps the board as an 8x8 grid of signed integers: 0 is empty,
+1 a piece of the first player, -1 a piece of the second. The model keeps
that representation (`Grid.Board`, a `seq<seq<int>>` of 8 rows of 8). It
covers:

- board setup (`Grid.CreateBoard`);
- move generation (`MoveGeneration.GenerateMoves` and the four inner walks,
  `SlideAlong`);
- custodian captures (`CaptureRule.CheckCaptureDirectionNS/EW`,
  `FindCaptures`) and the capture-move filter (`GenerateCaptureMoves`);
- move application (`Update.UpdateBoard`);
- the action codec that numbers moves 0 to 895 (`Codec`);
- the game interface the self-play trainer calls (`PetteiaGame`): the
  action size, the valid-action mask, the next state, the end-of-game test,
  the canonical form and the symmetries.

The code that changes things step by step is modelled as methods with
loops: board setup, the direction walks, move generation, the capture
clearing loop of update_board, and the mask fill of getValidMoves. Each is
proved against a specification function. The arithmetic and comprehension
code is modelled as functions. A numpy array is a value that update_board
copies before writing, so the caller's board is never changed. The model
shows this by taking the board as an immutable sequence and writing only
to a local copy.

The action codec gives each source square a block of 14 actions. The
encoder skips the source's own index on the changing axis, shifting every
destination past it down by one (`petteia/PetteiaGame.py:149-150`). The
`+ 1` in the decoder (`petteia/PetteiaGame.py:165-166`) is evidently meant
to undo that skip, but it applies only when the slot equals the source
index. So the decoder is not the inverse of the encoder (see Findings).
`GetNextState` uses the decoder as written. The corrected decoder is
modelled and proved beside it, and `IntendedDecoderPlaysEverySlide` shows
what the game would gain from it.

The end-of-game test counts only positive cells, whatever `player` is
(`petteia/PetteiaGame.py:214`). The model keeps this. `CanonicalOutcome`
states the one setting in which the count is the mover's own piece count:
the canonical board asked as the first player.

## Model

| member | source | states |
|---|---|---|
| Grid.CreateBoard | petteia/PetteiaGame.py:22-27 | the new board has -1 on every square of row 0, +1 on every square of row 7 and 0 everywhere else |
| Ranges.Ray | petteia/PetteiaGame.py:61-64 | the squares a direction walks from an on-board square are exactly the 1st, 2nd, ... square away in that direction up to the edge, nearest first, all on the board |
| CaptureRule.CheckCaptureDirectionNS | petteia/PetteiaGame.py:66-77 | walking down a column over the given rows returns the run of enemy squares when a friendly piece closes it, and [] when the walk meets an empty square or runs out |
| CaptureRule.CheckCaptureDirectionEW | petteia/PetteiaGame.py:79-90 | the same walk along a row over the given columns |
| CaptureRule.ScanCases | petteia/PetteiaGame.py:66-90 | a walk runs off the board exactly when every square on it is an enemy; it is closed exactly when some prefix of enemies is followed by a friendly piece; the run it returns is that prefix |
| CaptureRule.ScanSkipsEnemies | petteia/PetteiaGame.py:68-72 | a leading stretch of enemy squares is accumulated into the run and the walk carries on after it |
| CaptureRule.FindCaptures | petteia/PetteiaGame.py:60-64 | the captures are the north, south, west and east captures concatenated in that order |
| CaptureRule.DirectionCaptures | petteia/PetteiaGame.py:60-90 | a direction captures something exactly when k >= 1 enemy pieces lie next to the square in a line, closed by a friendly piece on the board; it then captures exactly those k squares, nearest first |
| CaptureRule.CapturedAreEnemies | petteia/PetteiaGame.py:60-90 | every captured square is on the board, holds an enemy piece and is not the square the piece landed on |
| MoveGeneration.SlideAlong | petteia/PetteiaGame.py:104-126 | a direction walk offers a move to every empty square up to the first occupied one and no further |
| MoveGeneration.SlideTargetsSpec | petteia/PetteiaGame.py:104-126 | the offered moves go to the leading empty squares of the walk, in order, and the square after them (if any) is occupied |
| MoveGeneration.PositionsBelow | petteia/PetteiaGame.py:94-95 | the pieces visited are on the board, hold exactly `player`, and come in strictly increasing row-major order |
| MoveGeneration.PositionsComplete | petteia/PetteiaGame.py:94-95 | every square holding exactly `player` is visited |
| MoveGeneration.GenerateMoves | petteia/PetteiaGame.py:92-127 | the result lists every legal slide of `player` and nothing else, with no move twice |
| MoveGeneration.MovesCharacterised | petteia/PetteiaGame.py:92-127 | a move is generated if and only if it starts on a square holding `player`, ends on an empty square of the board, changes exactly one coordinate and passes only over empty squares; no move is generated twice |
| MoveGeneration.MovesSound | petteia/PetteiaGame.py:92-127 | every generated move is a legal slide of `player` |
| MoveGeneration.MovesComplete | petteia/PetteiaGame.py:92-127 | every legal slide of `player` is generated |
| MoveGeneration.PieceMovesSound | petteia/PetteiaGame.py:102-126 | each move offered for a piece of `player` is a legal slide |
| MoveGeneration.PieceMovesComplete | petteia/PetteiaGame.py:102-126 | each legal slide is offered for the piece it starts from |
| MoveGeneration.SlideTargetsSound | petteia/PetteiaGame.py:104-126 | each move one direction walk offers is a legal slide |
| MoveGeneration.PieceMovesShape | petteia/PetteiaGame.py:102-126 | the four walks of one piece offer no move twice, and all of them leave from that piece |
| MoveGeneration.MovesOfMember | petteia/PetteiaGame.py:102-127 | a move is in the list exactly when it is offered for one of the visited pieces |
| MoveGeneration.MovesOfDistinct | petteia/PetteiaGame.py:102-127 | moves of different pieces never coincide, so the list has no repeats |
| MoveGeneration.InitialMoves | petteia/test_petteia.py:8-11 | in the opening position the first player has exactly 48 moves |
| MoveGeneration.InitialPieceMoves | petteia/test_petteia.py:8-11 | each piece of the first player's opening row has exactly 6 moves |
| MoveGeneration.InitialAdvance | petteia/test_petteia.py:14-21 | in the opening position the piece on (7, 4) can slide to (4, 4) |
| MoveGeneration.GenerateCaptureMovesFilters | petteia/PetteiaGame.py:54-57 | generate_capture_moves keeps, in their order, exactly the moves of the list whose destination gives a non-empty find_captures on the board as it stands |
| MoveGeneration.CapturingSquaresMember | petteia/PetteiaGame.py:56 | a location is kept exactly when it is listed and find_captures there is non-empty |
| Codec.EncodeRange | petteia/PetteiaGame.py:145-158 | every on-board move that changes exactly one coordinate encodes into [0, 896), in the 14-action block of its source square |
| Codec.EncodeInjective | petteia/PetteiaGame.py:145-158 | two such moves get the same action exactly when they are the same move |
| Codec.DecodeRange | petteia/PetteiaGame.py:160-172 | every action in [0, 896) decodes to an on-board move that changes exactly one coordinate, from the square owning the action's block |
| Codec.DecodeThenEncode | petteia/PetteiaGame.py:145-172 | decoding then encoding gives the action back exactly when its slot is not past the source's own index on the changing axis, and the action one below otherwise |
| Codec.EncodeThenDecode | petteia/PetteiaGame.py:145-172 | encoding then decoding gives the move back exactly when its destination is before the source or just one past it on the changing axis; otherwise the decoded move stops one square short |
| Codec.DecodeIsNotInverse | petteia/PetteiaGame.py:160-172 | action 2 decodes to (0,0) -> (2,0), which encodes to 1; actions 0 and 1 decode to the same move |
| Codec.IntendedDecodeThenEncode | petteia/PetteiaGame.py:145-172 | with the decoder shifting every slot from the source index on, every action in [0, 896) decodes to an on-board one-coordinate move whose action is that action again |
| Codec.IntendedEncodeThenDecode | petteia/PetteiaGame.py:145-172 | with that decoder every on-board one-coordinate move decodes back from its action; with the row above, the codec is a bijection |
| Update.ClearSquares | petteia/PetteiaGame.py:44-51 | the loop over the captured squares empties each of them in turn |
| Update.ClearAllCells | petteia/PetteiaGame.py:44-51 | after the loop the listed squares are empty and every other square is unchanged |
| Update.UpdateBoard | petteia/PetteiaGame.py:29-52 | fails with an ownership violation exactly when the source square does not hold `player`; otherwise returns the board with the piece moved and the captured squares emptied |
| Update.AppliedCells | petteia/PetteiaGame.py:29-52 | after a move the captured squares are empty, the destination holds the moved piece, the source is empty, every other square is unchanged; the destination is never captured and every captured square held an enemy piece |
| Update.AppliedByOwner | petteia/PetteiaGame.py:29-52 | the same for a move that passes the ownership check: the destination holds `player` |
| Update.OccupancyNeverGrows | petteia/PetteiaGame.py:29-52 | a move never increases the number of occupied squares |
| PetteiaGame.ActionSpaceHoldsEncoding | petteia/PetteiaGame.py:184-185 | every on-board one-coordinate move encodes below the action size |
| PetteiaGame.ActionSpaceDecodes | petteia/PetteiaGame.py:184-185 | every action below the action size decodes to an on-board one-coordinate move |
| PetteiaGame.GetValidMoves | petteia/PetteiaGame.py:187-196 | the mask has 896 entries, 1 on the action of every generated move and 0 elsewhere |
| PetteiaGame.MaskOfPrefix | petteia/PetteiaGame.py:193-194 | marking one more move sets its action, and no other entry, to 1 |
| PetteiaGame.MaskMarksLegalSlides | petteia/PetteiaGame.py:187-196 | an action is marked valid exactly when some legal slide of `player` encodes to it; every entry is 0 or 1 |
| PetteiaGame.ActionsCount | petteia/PetteiaGame.py:187-196 | distinct one-coordinate moves mark distinct actions, as many as there are moves |
| PetteiaGame.MaskCountsMoves | petteia/PetteiaGame.py:187-196 | the mask has exactly as many 1 entries as generate_moves returns moves |
| PetteiaGame.InitialMask | petteia/test_petteia.py:14-21 | in the opening position the first player's mask has 48 valid actions, action 844 among them |
| PetteiaGame.ShortenedSlide | petteia/PetteiaGame.py:160-172 | a legal slide towards a higher row or column that covers two squares or more is still a legal slide when it stops one square short, which is the move the decoder gives back for it |
| PetteiaGame.ValidActionsDecodeToSlides | petteia/PetteiaGame.py:187-210 | every valid action decodes to a legal slide of `player`, so applying it never fails the ownership check |
| PetteiaGame.OpeningSlideUnplayable | petteia/PetteiaGame.py:160-172 | in the opening position the second player's slide (0,0) -> (6,0) is legal, its action 5 decodes to (0,0) -> (5,0), and no action marked valid decodes to it |
| PetteiaGame.IntendedDecoderPlaysEverySlide | petteia/PetteiaGame.py:160-196 | with the corrected decoder, the action of every legal slide is valid and decodes back to it, and every valid action decodes to a legal slide |
| PetteiaGame.GetNextState | petteia/PetteiaGame.py:198-210 | the action decodes to a one-coordinate on-board move; the result fails with an ownership violation exactly when its source does not hold `player`, and otherwise is the board after the move with the turn passed to -player |
| PetteiaGame.GetGameEnded | petteia/PetteiaGame.py:212-219 | returns -player when at most one cell is positive or `player` has no legal slide, and 0 otherwise |
| PetteiaGame.CanonicalInvolution | petteia/PetteiaGame.py:221-222 | for a player of +1 or -1 the canonical form of the canonical form is the board, and the first player's canonical form is the board itself |
| PetteiaGame.CanonicalSlides | petteia/PetteiaGame.py:221-222 | the first player's legal slides on the canonical form are exactly `player`'s legal slides on the board |
| PetteiaGame.CanonicalOutcome | petteia/PetteiaGame.py:212-222 | on the canonical form asked as the first player, the game is lost exactly when the mover has at most one piece or no legal slide, and the result is 0 or -1 |
| PetteiaGame.RavelReshape | petteia/PetteiaGame.py:226-227 | reshaping the policy into rows and flattening it again gives the same values in the same order |
| PetteiaGame.GetSymmetries | petteia/PetteiaGame.py:224-228 | fails exactly when the policy does not have one entry per action; otherwise returns the single pair of the board and the unchanged policy |

## Left out

- print_board and stringRepresentation: console and display formatting only.
- The log.debug calls and the debug and verbose print branches: they write to the console and do not affect results.
- The print-then-reraise handlers in update_board and getNextState: the model returns the failure itself as `Err(OwnershipViolation)`. The RecursionError they also catch cannot arise in this code.
- getInitBoard and getBoardSize: plain delegations to create_board and the constant (8, 8).
- The Game base class and the `sys.path` setup: framework plumbing outside this file.
- GetValidMoves: the mask is a numpy float array of 0.0 and 1.0; the model uses the integers 0 and 1.
- GetNextState: requires an action in [0, 896), the range the mask covers. A negative action in [-896, 0) decodes, with Python's floor division, to a move with a negative row (for example -1 to (-1, 7) -> (-1, 6)); numpy indexing wraps that row around to the far edge, and update_board then moves pieces there without error. An action of 896 or more, or below -896, gives a row numpy cannot index and raises an IndexError. Neither behaviour is modelled.
- UpdateBoard: requires both squares of the move on the board. Python's negative indices would wrap around to the far edge; the engine only ever passes on-board moves.
- GenerateCaptureMoves: requires every destination in the list on the board, for the same reason.
- GetSymmetries: the policy is a `seq<real>`, and numpy's reshape and ravel are modelled as operations on sequences.

## Findings

| source | as written | input that shows it | evidently intended | confidence | as-written member | corrected member |
|---|---|---|---|---|---|---|
| petteia/PetteiaGame.py:165-166 | the decoder adds 1 back to the slot only when it equals the source index | action 2 decodes to (0,0) -> (2,0), whose action is 1; in the opening position the second player's slide (0,0) -> (6,0) has action 5, which decodes to (0,0) -> (5,0) | add 1 to every slot from the source index on (`>=`), making the decoder the inverse of the encoder | not executed | Codec.DecodeIsNotInverse, PetteiaGame.OpeningSlideUnplayable | Codec.IntendedDecodeThenEncode, Codec.IntendedEncodeThenDecode, PetteiaGame.IntendedDecoderPlaysEverySlide |
