/** Squares, directions and rook moves on the 9x9 Tablut board.

    The Java `Square` class is not part of this model; what the board code
    relies on is restated here: a square is a (column, row) pair in [0, 9),
    direction 0 is north (row + 1), 1 east (column + 1), 2 south (row - 1)
    and 3 west (column - 1), `rookMove(d, k)` is the square k steps along d
    or null off the board, and `between` is the middle of two squares two
    apart on a line. */
module Geometry {
  import opened Wrappers

  const SIZE: int := 9

  datatype Coord = Coord(col: int, row: int)

  /** A square of the board. */
  type Square = c: Coord | 0 <= c.col < 9 && 0 <= c.row < 9 witness Coord(0, 0)

  /** One of the four orthogonal directions. */
  type Dir = d: int | 0 <= d < 4

  /** A move descriptor, as held in the precomputed ray tables. */
  datatype Move = Move(from: Square, to: Square)

  const THRONE: Square := Coord(4, 4)
  const NTHRONE: Square := Coord(4, 5)
  const STHRONE: Square := Coord(4, 3)
  const WTHRONE: Square := Coord(3, 4)
  const ETHRONE: Square := Coord(5, 4)

  const INITIAL_ATTACKERS: seq<Square> := [
    Coord(0, 3), Coord(0, 4), Coord(0, 5), Coord(1, 4),
    Coord(8, 3), Coord(8, 4), Coord(8, 5), Coord(7, 4),
    Coord(3, 0), Coord(4, 0), Coord(5, 0), Coord(4, 1),
    Coord(3, 8), Coord(4, 8), Coord(5, 8), Coord(4, 7)
  ]

  const INITIAL_DEFENDERS: seq<Square> := [
    NTHRONE, ETHRONE, STHRONE, WTHRONE,
    Coord(4, 6), Coord(4, 2), Coord(2, 4), Coord(6, 4)
  ]

  /** True iff the square lies on the border of the board. */
  predicate IsEdge(s: Square) {
    s.col == 0 || s.col == SIZE - 1 || s.row == 0 || s.row == SIZE - 1
  }

  /** Position of a square in the column-major scan the board code uses. */
  function Index(s: Square): (i: nat)
    ensures i < 81
  {
    s.col * 9 + s.row
  }

  /** The square scanned at position i. */
  function SquareAt(i: int): (s: Square)
    requires 0 <= i < 81
    ensures Index(s) == i
  {
    Coord(i / 9, i % 9)
  }

  lemma SquareAtIndex(s: Square)
    ensures SquareAt(Index(s)) == s
  {
  }

  /** Distinct squares have distinct scan positions. */
  lemma IndexInjective(s: Square, t: Square)
    ensures Index(s) == Index(t) ==> s == t
  {
    if Index(s) == Index(t) {
      SquareAtIndex(s);
      SquareAtIndex(t);
    }
  }

  /** The square k steps from s in direction d, if it is on the board. */
  function RookMove(s: Square, d: Dir, k: nat): (r: Option<Square>)
    ensures r.Some? <==> k <= StepsToEdge(s, d)
  {
    var c := if d == 1 then s.col + k else if d == 3 then s.col - k else s.col;
    var w := if d == 0 then s.row + k else if d == 2 then s.row - k else s.row;
    if 0 <= c < SIZE && 0 <= w < SIZE then Some(Coord(c, w)) else None
  }

  /** How many steps can be taken from s in direction d. */
  function StepsToEdge(s: Square, d: Dir): nat {
    match d
    case 0 => SIZE - 1 - s.row
    case 1 => SIZE - 1 - s.col
    case 2 => s.row
    case 3 => s.col
  }

  /** True iff a rook could go from a to b on an empty board. */
  predicate IsRookMove(a: Square, b: Square) {
    a != b && (a.col == b.col || a.row == b.row)
  }

  /** The direction from a towards b; meaningful when IsRookMove(a, b). */
  function Direction(a: Square, b: Square): Dir {
    if a.col == b.col then (if b.row > a.row then 0 else 2)
    else if b.col > a.col then 1 else 3
  }

  /** Number of steps from a to b along their common line. */
  function Distance(a: Square, b: Square): nat {
    if a.col == b.col then (if b.row > a.row then b.row - a.row else a.row - b.row)
    else if b.col > a.col then b.col - a.col else a.col - b.col
  }

  /** The squares a rook passes over, and lands on, going from a to b:
      those strictly after a, up to and including b, on their common line. */
  predicate OnPath(a: Square, b: Square, s: Square) {
    || (a.col == b.col && s.col == a.col && (a.row < s.row <= b.row || b.row <= s.row < a.row))
    || (a.row == b.row && s.row == a.row && (a.col < s.col <= b.col || b.col <= s.col < a.col))
  }

  /** Stepping from a along Direction(a, b) exactly Distance(a, b) times reaches b. */
  lemma RookMoveReaches(a: Square, b: Square)
    requires IsRookMove(a, b)
    ensures 1 <= Distance(a, b) <= StepsToEdge(a, Direction(a, b))
    ensures RookMove(a, Direction(a, b), Distance(a, b)) == Some(b)
  {
  }

  /** True iff a and b are two squares apart on a row or column. */
  predicate TwoApart(a: Square, b: Square) {
    || (a.col == b.col && (a.row - b.row == 2 || b.row - a.row == 2))
    || (a.row == b.row && (a.col - b.col == 2 || b.col - a.col == 2))
  }

  /** The square strictly between two squares two apart. */
  function Between(a: Square, b: Square): (m: Square)
    requires TwoApart(a, b)
    ensures Distance(a, m) == 1 && Distance(m, b) == 1 && IsRookMove(a, m) && IsRookMove(m, b)
  {
    Coord((a.col + b.col) / 2, (a.row + b.row) / 2)
  }

  /** The flank square two steps away and the neighbour one step away are
      linked by Between. */
  lemma BetweenOfTwoSteps(s: Square, d: Dir)
    requires RookMove(s, d, 2).Some?
    ensures TwoApart(s, RookMove(s, d, 2).value)
    ensures RookMove(s, d, 1).Some?
    ensures Between(s, RookMove(s, d, 2).value) == RookMove(s, d, 1).value
  {
  }

  /** True iff t is an orthogonal neighbour of s. */
  predicate Adjacent(s: Square, t: Square) {
    IsRookMove(s, t) && Distance(s, t) == 1
  }

  /** The destinations of ROOK_MOVES[s][d]: every square along the ray from
      s in direction d, nearest first, up to the board edge. */
  function RookRay(s: Square, d: Dir): (ray: seq<Square>)
    ensures |ray| == StepsToEdge(s, d)
    ensures forall k :: 0 <= k < |ray| ==> RookMove(s, d, k + 1) == Some(ray[k])
  {
    seq(StepsToEdge(s, d), k requires 0 <= k < StepsToEdge(s, d) => RookMove(s, d, k + 1).value)
  }

  /** The ray tables hold exactly the rook moves leaving s in direction d. */
  lemma RookRayMembers(s: Square, d: Dir, t: Square)
    ensures t in RookRay(s, d) <==> IsRookMove(s, t) && Direction(s, t) == d
  {
    var ray := RookRay(s, d);
    if IsRookMove(s, t) && Direction(s, t) == d {
      RookMoveReaches(s, t);
      assert ray[Distance(s, t) - 1] == t;
    }
  }
}
