/** Laws of `makeMove` and `undo`. */
module MoveLaws {
  import opened Wrappers
  import opened Geometry
  import opened Pieces
  import opened Grids
  import opened Boards
  import opened Legality
  import opened Captures
  import opened Play

  /** The capture loop leaves `to` alone and changes only neighbours of
      `to`, to empty. */
  lemma LoopLocality(st0: CaptureState, r: CaptureState, to: Square)
    requires st0.saved == []
    requires forall k :: 0 <= k < |r.saved| ==> LaterNeighbour(to, r.saved[k].square, 0)
    requires forall s :: Get(r.grid, s) != Get(st0.grid, s) ==> Get(r.grid, s) == Empty && SavedAt(r.saved, 0, s)
    ensures forall s :: Get(r.grid, s) != Get(st0.grid, s) ==> Get(r.grid, s) == Empty && Adjacent(to, s)
  {
  }

  /** A move changes only its two squares and the neighbours of its
      destination, and a changed neighbour becomes empty. */
  lemma MoveLocality(b: Board, from: Square, to: Square)
    requires IsLegal(b, from, to) && ApplyMove(b, from, to).Success?
    ensures var r := ApplyMove(b, from, to).value;
            && Get(r.grid, to) == Get(b.grid, from)
            && Get(r.grid, from) == Empty
            && (forall s :: s != from && s != to && !Adjacent(to, s) ==> Get(r.grid, s) == Get(b.grid, s))
            && (forall s :: s != from && Get(r.grid, s) != Get(b.grid, s) && Adjacent(to, s) ==> Get(r.grid, s) == Empty)
  {
    var st0 := MoveStart(b, from, to);
    var pieces := PieceLocations(b.grid, b.turn);
    CaptureLoopClears(st0, to, pieces, 0);
    CaptureLoopSaves(st0, to, pieces, 0);
    LoopLocality(st0, CaptureLoop(st0, to, pieces, 0).value, to);
  }

  /** A neighbour of the destination is emptied only if it held a piece of
      the side not moving, and the square beyond it, in line with the move's
      destination, held a piece of the mover before the move or is the
      throne. */
  lemma MoveTakesOnlyEnemies(b: Board, from: Square, to: Square, s: Square)
    requires IsLegal(b, from, to) && ApplyMove(b, from, to).Success?
    requires s != from && Get(ApplyMove(b, from, to).value.grid, s) != Get(b.grid, s)
    requires s != to
    ensures Get(b.grid, s) != Empty && SideOf(Get(b.grid, s)) == Opponent(b.turn)
    ensures Adjacent(to, s) && RookMove(to, Direction(to, s), 2).Some?
    ensures var f := RookMove(to, Direction(to, s), 2).value;
            SideOf(Get(b.grid, f)) == b.turn || f == THRONE
  {
    var st0 := MoveStart(b, from, to);
    var pieces := PieceLocations(b.grid, b.turn);
    CaptureLoopTakesEnemies(st0, to, pieces, 0);
    assert SideOf(Get(st0.grid, to)) == b.turn;
  }

  /** Every flanked neighbour is tried: for each direction e whose square
      two steps from `to` exists, the neighbour in direction e is removed by
      the move exactly when that flank square held a piece of the mover
      before the move, or is the throne, and the capture rule holds on the
      grid as it stands when the loop reaches e. */
  lemma MoveAttemptsCaptures(b: Board, from: Square, to: Square, e: Dir)
    requires IsLegal(b, from, to) && ApplyMove(b, from, to).Success?
    requires RookMove(to, e, 2).Some?
    ensures LoopStateAt(MoveStart(b, from, to), to, PieceLocations(b.grid, b.turn), 0, e).Success?
    ensures var mid := RookMove(to, e, 1).value;
            var flank := RookMove(to, e, 2).value;
            var start := Relocate(b.grid, from, to);
            var se := LoopStateAt(MoveStart(b, from, to), to, PieceLocations(b.grid, b.turn), 0, e).value;
            var r := ApplyMove(b, from, to).value;
            && TwoApart(to, flank)
            && Get(se.grid, mid) == Get(start, mid)
            && (Get(r.grid, mid) != Get(start, mid) <==>
                  (SideOf(Get(b.grid, flank)) == b.turn || flank == THRONE) && Capturable(se.grid, to, flank))
  {
    CaptureLoopAttempts(MoveStart(b, from, to), to, PieceLocations(b.grid, b.turn), 0, e);
  }

  /** Pieces of the mover, the king included when WHITE moves, are never
      taken by its own move. */
  lemma MoverKeepsPieces(b: Board, from: Square, to: Square, s: Square)
    requires IsLegal(b, from, to) && ApplyMove(b, from, to).Success?
    requires IsRookMove(from, to)
    requires SideOf(Get(b.grid, s)) == b.turn && s != from
    ensures Get(ApplyMove(b, from, to).value.grid, s) == Get(b.grid, s)
  {
    LegalTargetEmpty(b, from, to);
    MoveLocality(b, from, to);
    if s != to && Get(ApplyMove(b, from, to).value.grid, s) != Get(b.grid, s) {
      MoveTakesOnlyEnemies(b, from, to, s);
    }
  }

  /** The new position repeats iff it is among the positions recorded
      before the move: the position recorded by the move itself has the
      other side to move. */
  lemma MoveRepetition(b: Board, from: Square, to: Square)
    requires IsLegal(b, from, to) && ApplyMove(b, from, to).Success?
    ensures var r := ApplyMove(b, from, to).value;
            && (Repeats(r.turn, r.grid, r.history) <==> Position(r.turn, r.grid) in Signatures(b.history))
            && (r.repeated <==> b.repeated || Position(r.turn, r.grid) in Signatures(b.history))
  {
    var r := ApplyMove(b, from, to).value;
    assert Signatures(r.history) == Signatures(b.history) + [Encoded(b)];
  }

  /** Who has won after a move, in the order the Java code decides it, the
      last decision standing: a repeated position is a win for the side now
      to move; else the king on the edge is a win for WHITE; else taking the
      king is a win for BLACK; else a side to move without a legal move lost
      already before moving; else the winner is unchanged. */
  lemma MoveWinner(b: Board, from: Square, to: Square)
    requires IsLegal(b, from, to) && ApplyMove(b, from, to).Success?
    ensures var r := ApplyMove(b, from, to).value;
            r.winner ==
              if Position(r.turn, r.grid) in Signatures(b.history) then Some(r.turn)
              else if KingOnEdge(r.grid) then Some(White)
              else if KingTaken(Relocate(b.grid, from, to), r.grid) then Some(Black)
              else if !HasMove(b, b.turn) then Some(Opponent(b.turn))
              else b.winner
  {
    MoveRepetition(b, from, to);
    CaptureLoopWinner(MoveStart(b, from, to), to, PieceLocations(b.grid, b.turn), 0);
  }

  /** A decided game stays decided: no move resets the winner to none. */
  lemma WinnerKept(b: Board, from: Square, to: Square)
    requires IsLegal(b, from, to) && ApplyMove(b, from, to).Success?
    requires b.winner.Some?
    ensures ApplyMove(b, from, to).value.winner.Some?
  {
    MoveWinner(b, from, to);
  }

  /** The side to move always has a move when it makes a legal move along a
      line, so the "no legal move" clause of `makeMove` never fires for one. */
  lemma StalemateUnreachable(b: Board, from: Square, to: Square)
    requires IsRookMove(from, to) && IsLegal(b, from, to)
    ensures HasMove(b, b.turn)
  {
    assert Move(from, to) in LegalMoves(b, b.turn);
  }

  /** Undoing a move along a line restores the board as it was, except
      that the winner the move declared stays and the repetition flag is
      cleared. */
  lemma UndoRoundTrip(b: Board, from: Square, to: Square)
    requires IsRookMove(from, to) && IsLegal(b, from, to) && ApplyMove(b, from, to).Success?
    ensures Undoable(ApplyMove(b, from, to).value)
    ensures var r := ApplyMove(b, from, to).value;
            Undo(r) == b.(winner := r.winner, repeated := false)
  {
    var r := ApplyMove(b, from, to).value;
    var st0 := MoveStart(b, from, to);
    var pieces := PieceLocations(b.grid, b.turn);
    var st := CaptureLoop(st0, to, pieces, 0).value;
    var g1 := st0.grid;
    assert r.history[|r.history| - 1] == Entry(from, to, st.saved, Encoded(b));
    CaptureLoopSaves(st0, to, pieces, 0);
    CaptureLoopClears(st0, to, pieces, 0);
    RestoreAgrees(st.grid, g1, st.saved);
    var restored := Restore(st.grid, st.saved);
    forall s ensures Get(restored, s) == Get(g1, s) {
    }
    GridExt(restored, g1);
    LegalTargetEmpty(b, from, to);
    var back := Set(Set(restored, from, Get(restored, to)), to, Empty);
    forall s ensures Get(back, s) == Get(b.grid, s) {
    }
    GridExt(back, b.grid);
    assert r.history[..|r.history| - 1] == b.history;
  }
}
