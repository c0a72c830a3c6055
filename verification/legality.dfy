/** Move legality and move generation (Java `isUnblockedMove`, `isLegal`,
    `legalMoves`, `hasMove`). */
module Legality {
  import opened Wrappers
  import opened Geometry
  import opened Pieces
  import opened Grids
  import opened Boards

  /** The walk of `isUnblockedMove`: step from cur along d while cur is
      still a rook move away from `to`, failing on a piece or the edge. */
  function Walk(g: Grid, cur: Square, to: Square, d: Dir): bool
    decreases StepsToEdge(cur, d)
  {
    if !IsRookMove(cur, to) then true
    else match RookMove(cur, d, 1)
      case None => false
      case Some(next) => Get(g, next) == Empty && Walk(g, next, to, d)
  }

  /** Java `isUnblockedMove`.  As written, squares that are not on a common
      line skip the walk, so only the origin is checked for them. */
  function IsUnblockedMove(g: Grid, from: Square, to: Square): bool {
    Get(g, from) != Empty && Walk(g, from, to, Direction(from, to))
  }

  /** Walking towards an aligned square checks exactly the squares on the path. */
  lemma {:induction false} WalkChecksPath(g: Grid, cur: Square, to: Square)
    requires IsRookMove(cur, to)
    ensures Walk(g, cur, to, Direction(cur, to)) <==> forall s :: OnPath(cur, to, s) ==> Get(g, s) == Empty
    decreases Distance(cur, to)
  {
    var d := Direction(cur, to);
    RookMoveReaches(cur, to);
    var next := RookMove(cur, d, 1).value;
    if next == to {
      assert forall s :: OnPath(cur, to, s) <==> s == to;
    } else {
      assert IsRookMove(next, to) && Direction(next, to) == d;
      assert forall s :: OnPath(cur, to, s) <==> s == next || OnPath(next, to, s);
      WalkChecksPath(g, next, to);
    }
  }

  /** For squares on a common line, the move is unblocked iff the origin holds
      a piece and every square after it, up to and including the
      destination, is empty. */
  lemma UnblockedIff(g: Grid, from: Square, to: Square)
    requires IsRookMove(from, to)
    ensures IsUnblockedMove(g, from, to) <==>
              Get(g, from) != Empty && forall s :: OnPath(from, to, s) ==> Get(g, s) == Empty
  {
    WalkChecksPath(g, from, to);
  }

  /** As written, squares that share no line are "unblocked" whenever the
      origin holds a piece: the walk loop never runs. */
  lemma UnalignedUnblocked(g: Grid, from: Square, to: Square)
    requires from != to && from.col != to.col && from.row != to.row
    ensures IsUnblockedMove(g, from, to) <==> Get(g, from) != Empty
  {
  }

  /** Java `isLegal(Square)`: the origin holds a piece of the side to move. */
  predicate IsLegalOrigin(b: Board, from: Square) {
    SideOf(Get(b.grid, from)) == b.turn
  }

  /** Java `isLegal(Square, Square)`. */
  predicate IsLegal(b: Board, from: Square, to: Square) {
    if from == to || !IsLegalOrigin(b, from) then false
    else if Get(b.grid, from) != King && to == THRONE then false
    else IsUnblockedMove(b.grid, from, to)
  }

  /** Legality of aligned squares: a piece of the side to move, the throne
      only for the king, and a clear path including the destination. */
  lemma LegalIff(b: Board, from: Square, to: Square)
    requires IsRookMove(from, to)
    ensures IsLegal(b, from, to) <==>
              && SideOf(Get(b.grid, from)) == b.turn
              && (Get(b.grid, from) == King || to != THRONE)
              && forall s :: OnPath(from, to, s) ==> Get(b.grid, s) == Empty
  {
    UnblockedIff(b.grid, from, to);
  }

  /** The three ways `isLegal` rejects a move before looking at the path. */
  lemma IllegalCases(b: Board, from: Square, to: Square)
    ensures from == to ==> !IsLegal(b, from, to)
    ensures SideOf(Get(b.grid, from)) != b.turn ==> !IsLegal(b, from, to)
    ensures Get(b.grid, from) != King && to == THRONE ==> !IsLegal(b, from, to)
  {
  }

  /** A legal aligned move lands on an empty square. */
  lemma LegalTargetEmpty(b: Board, from: Square, to: Square)
    requires IsRookMove(from, to) && IsLegal(b, from, to)
    ensures Get(b.grid, to) == Empty && Get(b.grid, from) != Empty
  {
    LegalIff(b, from, to);
    assert OnPath(from, to, to);
  }

  /** Legality reads only the grid and the side to move. */
  lemma LegalDependsOnPosition(b: Board, c: Board, from: Square, to: Square)
    requires b.grid == c.grid && b.turn == c.turn
    ensures IsLegal(b, from, to) == IsLegal(c, from, to)
  {
  }

  /** The legal moves from s whose destinations lie in `ray`, in ray order. */
  function LegalAlong(b: Board, s: Square, ray: seq<Square>): (r: seq<Move>)
    ensures forall m {:trigger m in r} :: m in r <==> m.from == s && m.to in ray && IsLegal(b, s, m.to)
  {
    if ray == [] then []
    else (if IsLegal(b, s, ray[0]) then [Move(s, ray[0])] else []) + LegalAlong(b, s, ray[1..])
  }

  /** The legal moves of the piece on s, direction by direction. */
  function PieceMoves(b: Board, s: Square): (r: seq<Move>)
    ensures forall m {:trigger m in r} :: m in r <==> m.from == s && IsRookMove(s, m.to) && IsLegal(b, s, m.to)
  {
    forall t ensures t in RookRay(s, 0) || t in RookRay(s, 1) || t in RookRay(s, 2) || t in RookRay(s, 3)
                     <==> IsRookMove(s, t)
    {
      RookRayMembers(s, 0, t);
      RookRayMembers(s, 1, t);
      RookRayMembers(s, 2, t);
      RookRayMembers(s, 3, t);
    }
    LegalAlong(b, s, RookRay(s, 0)) + LegalAlong(b, s, RookRay(s, 1))
      + LegalAlong(b, s, RookRay(s, 2)) + LegalAlong(b, s, RookRay(s, 3))
  }

  /** Moves of the pieces of `side` on the first n squares of the scan. */
  function MovesBefore(b: Board, side: Side, n: nat): (r: seq<Move>)
    requires n <= 81
    ensures forall m {:trigger m in r} :: m in r <==>
              && Index(m.from) < n
              && SideOf(Get(b.grid, m.from)) == side
              && IsRookMove(m.from, m.to)
              && IsLegal(b, m.from, m.to)
  {
    if n == 0 then []
    else
      var s := SquareAt(n - 1);
      var prefix := MovesBefore(b, side, n - 1);
      assert forall m: Move :: Index(m.from) < n <==> m.from == s || Index(m.from) < n - 1 by {
        forall m: Move ensures Index(m.from) < n <==> m.from == s || Index(m.from) < n - 1 {
          IndexInjective(m.from, s);
        }
      }
      prefix + (if SideOf(Get(b.grid, s)) == side then PieceMoves(b, s) else [])
  }

  /** Java `legalMoves(side)`.  Java iterates a hash set of squares in an
      unspecified order; the model scans columns, then rows.  Every listed
      move is legal, hence starts from a piece of the side to move; and every
      legal move along a line is listed for that side. */
  function LegalMoves(b: Board, side: Side): (r: seq<Move>)
    ensures forall m {:trigger m in r} :: m in r <==> side == b.turn && IsRookMove(m.from, m.to) && IsLegal(b, m.from, m.to)
  {
    MovesBefore(b, side, |b.grid|)
  }

  /** Despite its documentation, `legalMoves` returns nothing for the side
      that is not to move. */
  lemma LegalMovesOtherSide(b: Board, side: Side)
    requires side != b.turn
    ensures LegalMoves(b, side) == []
  {
    NoMovesBefore(b, side, |b.grid|);
  }

  lemma {:induction false} NoMovesBefore(b: Board, side: Side, n: nat)
    requires side != b.turn && n <= 81
    ensures MovesBefore(b, side, n) == []
  {
    if n > 0 {
      NoMovesBefore(b, side, n - 1);
      var s := SquareAt(n - 1);
      if SideOf(Get(b.grid, s)) == side {
        NoLegalAlong(b, s, RookRay(s, 0));
        NoLegalAlong(b, s, RookRay(s, 1));
        NoLegalAlong(b, s, RookRay(s, 2));
        NoLegalAlong(b, s, RookRay(s, 3));
      }
    }
  }

  /** A piece that is not of the side to move has no legal move. */
  lemma {:induction false} NoLegalAlong(b: Board, s: Square, ray: seq<Square>)
    requires SideOf(Get(b.grid, s)) != b.turn
    ensures LegalAlong(b, s, ray) == []
  {
    if ray != [] {
      NoLegalAlong(b, s, ray[1..]);
    }
  }

  /** Java `hasMove`. */
  predicate HasMove(b: Board, side: Side) {
    LegalMoves(b, side) != []
  }

  /** A side has a move iff it is to move and some legal move along a line exists. */
  lemma HasMoveIff(b: Board, side: Side)
    ensures HasMove(b, side) <==>
              side == b.turn && exists m: Move :: IsRookMove(m.from, m.to) && IsLegal(b, m.from, m.to)
  {
    if HasMove(b, side) {
      assert LegalMoves(b, side)[0] in LegalMoves(b, side);
    } else if side == b.turn {
      forall m: Move ensures !(IsRookMove(m.from, m.to) && IsLegal(b, m.from, m.to)) {
        assert m !in LegalMoves(b, side);
      }
    }
  }
}
