/** Applying and undoing moves (Java `makeMove`, `checkRepeated`, `undo`,
    `undoPosition`). */
module Play {
  import opened Wrappers
  import opened Geometry
  import opened Pieces
  import opened Grids
  import opened Boards
  import opened Legality
  import opened Captures

  /** The grid with the piece on `from` moved to `to`. */
  function Relocate(g: Grid, from: Square, to: Square): (r: Grid)
    requires from != to
    ensures Get(r, to) == Get(g, from) && Get(r, from) == Empty
    ensures forall s :: s != from && s != to ==> Get(r, s) == Get(g, s)
  {
    Set(Set(g, to, Get(g, from)), from, Empty)
  }

  /** The king stands on the edge of the board. */
  predicate KingOnEdge(g: Grid) {
    match KingPosition(g)
    case None => false
    case Some(k) => IsEdge(k)
  }

  /** Java `checkRepeated` after `makeMove`: the new position was seen
      before, as one of the recorded positions. */
  predicate Repeats(turn: Side, g: Grid, history: seq<Entry>) {
    Position(turn, g) in Signatures(history)
  }

  /** The state the capture loop of `makeMove` starts from: the piece
      relocated, and the other side declared the winner if the side to move
      had no legal move. */
  function MoveStart(b: Board, from: Square, to: Square): (st: CaptureState)
    requires IsLegal(b, from, to)
    ensures st.grid == Relocate(b.grid, from, to) && st.saved == []
  {
    var stalemated := !HasMove(b, b.turn);
    CaptureState(Relocate(b.grid, from, to), if stalemated then Some(Opponent(b.turn)) else b.winner, [])
  }

  /** The result of the capture loop of `makeMove` for a legal move. */
  function MoveCaptures(b: Board, from: Square, to: Square): Result<CaptureState, Fault>
    requires IsLegal(b, from, to)
  {
    CaptureLoop(MoveStart(b, from, to), to, PieceLocations(b.grid, b.turn), 0)
  }

  /** Java `makeMove(from, to)` for a legal move: relocate the piece,
      resolve captures around `to`, declare a winner, pass the turn and
      check for a repeated position.  A null dereference in the capture
      code becomes a Failure. */
  function ApplyMove(b: Board, from: Square, to: Square): (r: Result<Board, Fault>)
    requires IsLegal(b, from, to)
    ensures r.Success? ==> r.value.turn == Opponent(b.turn) && r.value.moveCount == b.moveCount + 1
    ensures r.Success? ==> r.value.limit == b.limit
    ensures r.Success? ==> |r.value.history| == |b.history| + 1 && r.value.history[..|b.history|] == b.history
    ensures r.Success? ==> r.value.history[|b.history|].signature == Encoded(b)
    ensures r.Success? <==> MoveCaptures(b, from, to).Success?
    ensures r.Success? ==> r.value.grid == MoveCaptures(b, from, to).value.grid
  {
    var st :- MoveCaptures(b, from, to);
    var winner := if KingOnEdge(st.grid) then Some(White) else st.winner;
    var turn := Opponent(b.turn);
    var history := b.history + [Entry(from, to, st.saved, Encoded(b))];
    var repeat := Repeats(turn, st.grid, history);
    Success(Board(
      st.grid,
      turn,
      b.moveCount + 1,
      if repeat then Some(turn) else winner,
      b.repeated || repeat,
      history,
      b.limit))
  }

  /** Put back saved pieces, last saved first (the pops of `undoPosition`). */
  function Restore(g: Grid, saved: seq<Saved>): (r: Grid)
    ensures forall s :: (forall k :: 0 <= k < |saved| ==> saved[k].square != s) ==> Get(r, s) == Get(g, s)
    decreases |saved|
  {
    if saved == [] then g
    else
      var last := saved[|saved| - 1];
      Restore(Set(g, last.square, last.piece), saved[..|saved| - 1])
  }

  /** Restoring saved pieces that were read from a grid g puts back g's
      contents on every saved square and leaves the other squares alone,
      whatever the order of the entries. */
  lemma {:induction false} RestoreAgrees(h: Grid, g: Grid, saved: seq<Saved>)
    requires forall k :: 0 <= k < |saved| ==> saved[k].piece == Get(g, saved[k].square)
    ensures forall s :: Get(Restore(h, saved), s) == if SavedAt(saved, 0, s) then Get(g, s) else Get(h, s)
    decreases |saved|
  {
    if saved != [] {
      var last := saved[|saved| - 1];
      var init := saved[..|saved| - 1];
      RestoreAgrees(Set(h, last.square, last.piece), g, init);
      forall s ensures SavedAt(saved, 0, s) <==> SavedAt(init, 0, s) || s == last.square {
        if SavedAt(saved, 0, s) && s != last.square {
          var k :| 0 <= k < |saved| && saved[k].square == s;
          assert init[k].square == s;
        }
      }
    }
  }

  /** Undo history exists for every move counted. */
  predicate Undoable(b: Board) {
    b.moveCount > 0 ==> b.history != []
  }

  /** Java `undo`: nothing on the initial board; otherwise put back the
      pieces saved by the last move, move the piece back, drop the recorded
      position and pass the turn back.  The repetition flag is cleared; the
      winner is left as it is. */
  function Undo(b: Board): (r: Board)
    requires Undoable(b)
    ensures b.moveCount == 0 ==> r == b
    ensures b.moveCount > 0 ==>
              && r.moveCount == b.moveCount - 1 && r.turn == Opponent(b.turn)
              && r.history == b.history[..|b.history| - 1]
              && !r.repeated && r.winner == b.winner && r.limit == b.limit
  {
    if b.moveCount == 0 then b
    else
      var e := b.history[|b.history| - 1];
      var restored := Restore(b.grid, e.saved);
      var back := Set(Set(restored, e.from, Get(restored, e.to)), e.to, Empty);
      b.(grid := back, turn := Opponent(b.turn), moveCount := b.moveCount - 1,
         repeated := false, history := b.history[..|b.history| - 1])
  }
}
