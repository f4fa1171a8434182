/** The action codec: a move is encoded as one of 896 actions, 14 for each of
    the 64 source squares. Slots 0 to 6 of a square's block change the row
    (the destination row, with the source's own row skipped), slots 7 to 13
    change the column in the same way. */
module Codec {
  import opened Grid

  function Abs(x: int): int { if x < 0 then -x else x }

  /** convert_move_to_action. A destination past the source on the changing
      axis is shifted down by one, so that the 7 squares other than the
      source's own fill slots 0 to 6. */
  function ConvertMoveToAction(move: Move): int
  {
    var startX, startY := move.start.row, move.start.col;
    var endX, endY := move.end.row, move.end.col;
    var xIndex := if endX > startX then endX - 1 else endX;
    var yIndex := if endY > startY then endY - 1 else endY;
    var xDiff := Abs(startX - endX);
    var yDiff := Abs(startY - endY);
    startX * 112 + startY * 14 + (if xDiff != 0 then xIndex else 0) + (if yDiff != 0 then 7 + yIndex else 0)
  }

  /** convert_action_to_move, as written: the skipped source index is put
      back only when the slot EQUALS it, not for every slot from it on.
      Division and remainder round down, as Python's do for a positive
      divisor. */
  function ConvertActionToMove(action: int): Move
  {
    var startX := action / 112;
    var startY := (action % 112) / 14;
    var remainder := action % 14;
    var endX := if remainder < 7 then remainder + (if remainder == startX then 1 else 0) else startX;
    var endY := if remainder >= 7 then (remainder - 7) + (if remainder - 7 == startY then 1 else 0) else startY;
    Move(Coord(startX, startY), Coord(endX, endY))
  }

  /** An action splits into source row, source column and slot. */
  lemma SplitAction(a: int)
    requires 0 <= a < 896
    ensures 0 <= a / 112 < 8 && 0 <= (a % 112) / 14 < 8 && 0 <= a % 14 < 14
    ensures a == 112 * (a / 112) + 14 * ((a % 112) / 14) + a % 14
  {
  }

  /** Source row, source column and slot join into an action. */
  lemma JoinAction(r: int, c: int, slot: int)
    requires 0 <= r < 8 && 0 <= c < 8 && 0 <= slot < 14
    ensures var a := 112 * r + 14 * c + slot;
      a / 112 == r && (a % 112) / 14 == c && a % 14 == slot
  {
  }

  /** The slot a move occupies in its source square's block. */
  function SlotOf(m: Move): int
  {
    if m.start.row != m.end.row then (if m.end.row > m.start.row then m.end.row - 1 else m.end.row)
    else 7 + (if m.end.col > m.start.col then m.end.col - 1 else m.end.col)
  }

  lemma EncodeParts(m: Move)
    requires IsStep(m)
    ensures 0 <= SlotOf(m) < 14
    ensures ConvertMoveToAction(m) == 112 * m.start.row + 14 * m.start.col + SlotOf(m)
  {
  }

  /** Every move the codec is meant for lands in [0, 896), in the block of
      its source square. */
  lemma EncodeRange(m: Move)
    requires IsStep(m)
    ensures 0 <= ConvertMoveToAction(m) < 896
    ensures ConvertMoveToAction(m) / 14 == Index(m.start)
  {
    EncodeParts(m);
  }

  /** Every action in [0, 896) decodes to an on-board move that changes
      exactly one coordinate, leaving from the square that owns its block. */
  lemma DecodeRange(a: int)
    requires 0 <= a < 896
    ensures IsStep(ConvertActionToMove(a))
    ensures Index(ConvertActionToMove(a).start) == a / 14
  {
    SplitAction(a);
  }

  /** Distinct moves get distinct actions. */
  lemma EncodeInjective(m1: Move, m2: Move)
    requires IsStep(m1) && IsStep(m2)
    ensures ConvertMoveToAction(m1) == ConvertMoveToAction(m2) <==> m1 == m2
  {
    EncodeParts(m1);
    EncodeParts(m2);
    JoinAction(m1.start.row, m1.start.col, SlotOf(m1));
    JoinAction(m2.start.row, m2.start.col, SlotOf(m2));
    if ConvertMoveToAction(m1) == ConvertMoveToAction(m2) {
      assert m1.start == m2.start;
      assert SlotOf(m1) == SlotOf(m2);
    }
  }

  /** Decoding then encoding gives the action back exactly when the slot does
      not lie above the source's own index on the changing axis; otherwise it
      gives the action one below. */
  lemma DecodeThenEncode(a: int)
    requires 0 <= a < 896
    ensures var slot, m := a % 14, ConvertActionToMove(a);
      var below := if slot < 7 then slot <= m.start.row else slot - 7 <= m.start.col;
      ConvertMoveToAction(m) == (if below then a else a - 1)
  {
    SplitAction(a);
    var m := ConvertActionToMove(a);
    EncodeParts(m);
  }

  /** Encoding then decoding gives the move back exactly when its destination
      lies before the source on the changing axis, or just one past it;
      otherwise the decoded move stops one square short. */
  lemma EncodeThenDecode(m: Move)
    requires IsStep(m)
    ensures var back := ConvertActionToMove(ConvertMoveToAction(m));
      var faithful := if m.start.row != m.end.row then m.end.row <= m.start.row + 1 else m.end.col <= m.start.col + 1;
      back == if faithful then m else Move(m.start, ShortOfEnd(m))
  {
    EncodeParts(m);
    JoinAction(m.start.row, m.start.col, SlotOf(m));
  }

  /** The square one step back from the destination towards the source, on
      a move whose destination lies past the source. */
  function ShortOfEnd(m: Move): Coord
  {
    if m.start.row != m.end.row then Coord(m.end.row - 1, m.end.col) else Coord(m.end.row, m.end.col - 1)
  }

  /** The decoder is not the inverse of the encoder: action 2 decodes to the
      move (0,0) -> (2,0), which encodes to 1, and actions 0 and 1 decode to
      the same move. */
  lemma DecodeIsNotInverse()
    ensures ConvertActionToMove(2) == Move(Coord(0, 0), Coord(2, 0))
    ensures ConvertMoveToAction(Move(Coord(0, 0), Coord(2, 0))) == 1
    ensures ConvertActionToMove(0) == ConvertActionToMove(1) == Move(Coord(0, 0), Coord(1, 0))
  {
  }

  /** The decoder the encoder calls for: every slot from the source's own
      index on is shifted up by one. */
  function ConvertActionToMoveIntended(action: int): Move
  {
    var startX := action / 112;
    var startY := (action % 112) / 14;
    var remainder := action % 14;
    var endX := if remainder < 7 then remainder + (if remainder >= startX then 1 else 0) else startX;
    var endY := if remainder >= 7 then (remainder - 7) + (if remainder - 7 >= startY then 1 else 0) else startY;
    Move(Coord(startX, startY), Coord(endX, endY))
  }

  /** With the intended decoder every action in [0, 896) decodes to a
      move the codec is meant for, whose action is that action again. */
  lemma IntendedDecodeThenEncode(a: int)
    requires 0 <= a < 896
    ensures IsStep(ConvertActionToMoveIntended(a))
    ensures ConvertMoveToAction(ConvertActionToMoveIntended(a)) == a
  {
    SplitAction(a);
    EncodeParts(ConvertActionToMoveIntended(a));
  }

  /** With the intended decoder every move the codec is meant for decodes
      back from its action. Together with `IntendedDecodeThenEncode` this
      makes the codec a bijection between the 896 actions and those moves. */
  lemma IntendedEncodeThenDecode(m: Move)
    requires IsStep(m)
    ensures ConvertActionToMoveIntended(ConvertMoveToAction(m)) == m
  {
    EncodeParts(m);
    JoinAction(m.start.row, m.start.col, SlotOf(m));
  }
}
