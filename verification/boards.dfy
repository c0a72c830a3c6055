/** The board state of a Tablut game, its initial layout and move limit.

    The Java class keeps four parallel stacks for undoing; here one history
    entry per applied move holds the same information: the move's squares,
    the pieces that stood next to the destination before captures (the
    `pStack`/`csqStack` pushes) and the position recorded for repetition
    detection (the `sStack` push). */
module Boards {
  import opened Wrappers
  import opened Geometry
  import opened Pieces
  import opened Grids

  /** Java `encodedBoard`: the side to move followed by the whole grid.  The
      character encoding is taken to be injective, so the pair itself stands
      for the string. */
  datatype Position = Position(turn: Side, grid: Grid)

  /** A piece saved before captures were resolved, and where it stood. */
  datatype Saved = Saved(piece: Piece, square: Square)

  /** Undo record of one applied move. */
  datatype Entry = Entry(from: Square, to: Square, saved: seq<Saved>, signature: Position)

  datatype Board = Board(
    grid: Grid,
    turn: Side,
    moveCount: nat,
    winner: Option<Side>,
    repeated: bool,
    history: seq<Entry>,
    limit: int)

  /** A null dereference the Java code would run into. */
  datatype Fault =
    | MissingKing        // checkHostileThrone after the king left the board
    | OffBoardNeighbour  // captureKing looking past the edge of the board

  function Encoded(b: Board): Position {
    Position(b.turn, b.grid)
  }

  /** The positions recorded so far, one per applied move. */
  function Signatures(h: seq<Entry>): (r: seq<Position>)
    ensures |r| == |h|
    ensures forall k :: 0 <= k < |h| ==> r[k] == h[k].signature
  {
    seq(|h|, k requires 0 <= k < |h| => h[k].signature)
  }

  /** What the starting layout puts on square s.  Java `init` writes EMPTY
      everywhere, then BLACK on the attacker squares, WHITE on the defender
      squares and KING on the throne; the three lists are disjoint, so the
      order of the writes does not matter. */
  function InitialPiece(s: Square): Piece {
    if s == THRONE then King
    else if s in INITIAL_DEFENDERS then White
    else if s in INITIAL_ATTACKERS then Black
    else Empty
  }

  function InitialGrid(): Grid {
    seq(81, i requires 0 <= i < 81 => InitialPiece(SquareAt(i)))
  }

  lemma InitialGridContents()
    ensures forall s :: Get(InitialGrid(), s) == InitialPiece(s)
  {
    var g := InitialGrid();
    forall s
      ensures Get(g, s) == InitialPiece(s)
    {
      SquareAtIndex(s);
    }
  }

  /** Java `init`: the canonical starting position.  The repetition flag and
      the move limit are not touched by `init`. */
  function Init(b: Board): (r: Board)
    ensures forall s :: Get(r.grid, s) == InitialPiece(s)
    ensures r.turn == Black && r.moveCount == 0 && r.winner == None && r.history == []
    ensures r.repeated == b.repeated && r.limit == b.limit
  {
    InitialGridContents();
    Board(InitialGrid(), Black, 0, None, b.repeated, [], b.limit)
  }

  /** No square is listed twice. */
  predicate Distinct(squares: seq<Square>) {
    forall i, j :: 0 <= i < j < |squares| ==> squares[i] != squares[j]
  }

  /** A list of distinct squares has as many members as entries. */
  lemma {:induction false} DistinctSize(squares: seq<Square>)
    requires Distinct(squares)
    ensures |set s | s in squares| == |squares|
  {
    if squares != [] {
      var rest := squares[1..];
      assert Distinct(rest);
      DistinctSize(rest);
      assert (set s | s in squares) == (set s | s in rest) + {squares[0]};
      assert squares[0] !in rest;
    }
  }

  lemma LayoutDistinct()
    ensures Distinct(INITIAL_ATTACKERS) && Distinct(INITIAL_DEFENDERS + [THRONE])
  {
  }

  /** The starting layout has 16 attackers, and 8 defenders plus the king. */
  lemma InitialCounts(g: Grid)
    requires forall s :: Get(g, s) == InitialPiece(s)
    ensures CountSide(g, Black) == 16
    ensures CountSide(g, White) == 9
  {
    var defenders := INITIAL_DEFENDERS + [THRONE];
    forall s
      ensures s in PieceLocations(g, Black) <==> s in INITIAL_ATTACKERS
      ensures s in PieceLocations(g, White) <==> s in defenders
    {
      assert Get(g, s) == InitialPiece(s);
    }
    assert PieceLocations(g, Black) == set s | s in INITIAL_ATTACKERS;
    assert PieceLocations(g, White) == set s | s in defenders;
    LayoutDistinct();
    DistinctSize(INITIAL_ATTACKERS);
    DistinctSize(defenders);
  }

  /** Result of Java `setMoveLimit`: the limit is stored even when the call
      then throws because the limit is already exceeded. */
  datatype LimitOutcome = LimitOutcome(board: Board, rejected: bool)

  /** A Java `int`. */
  type Int32 = x: int | -0x8000_0000 <= x < 0x8000_0000

  /** Java `int` arithmetic: x reduced to the 32-bit two's-complement
      value congruent to it modulo 2^32. */
  function WrapInt(x: int): (r: Int32)
    ensures (r - x) % 0x1_0000_0000 == 0
    ensures -0x8000_0000 <= x < 0x8000_0000 ==> r == x
  {
    (x + 0x8000_0000) % 0x1_0000_0000 - 0x8000_0000
  }

  /** Java `setMoveLimit(n)`: the limit is stored, and the call is rejected
      when the move count has reached `2 * n` computed as a Java `int`,
      which wraps for |n| >= 2^30. */
  function SetMoveLimit(b: Board, n: Int32): (r: LimitOutcome)
    ensures r.board == b.(limit := n)
    ensures -0x4000_0000 <= n < 0x4000_0000 ==> (r.rejected <==> b.moveCount >= 2 * n)
    ensures 0x4000_0000 <= n ==> r.rejected
    ensures n < -0x4000_0000 ==> (r.rejected <==> b.moveCount >= 2 * n + 0x1_0000_0000)
  {
    LimitOutcome(b.(limit := n), b.moveCount >= WrapInt(2 * n))
  }
}
