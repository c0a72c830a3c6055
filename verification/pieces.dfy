/** Cell contents and the sides that control them.

    The Java `Piece` enum is not part of this model; the board code relies
    on `side(KING) == WHITE`, `side(EMPTY) == EMPTY` and each of BLACK and
    WHITE being its own side, which is what SideOf states. */
module Pieces {

  datatype Piece = Empty | Black | White | King

  /** A side that can be to move or win: BLACK (attackers) or WHITE (defenders). */
  type Side = p: Piece | p == Black || p == White witness Black

  /** The side controlling a piece; EMPTY belongs to no side. */
  function SideOf(p: Piece): (s: Piece)
    ensures s == Empty <==> p == Empty
    ensures s != King
    ensures p != King ==> s == p
  {
    if p == King then White else p
  }

  /** The other side. */
  function Opponent(s: Side): (o: Side)
    ensures o != s
  {
    if s == White then Black else White
  }
}
