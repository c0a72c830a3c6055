/** The 9x9 grid of cells, stored column-major as 81 cells: the Java
    `board[col][row]` is cell `col * 9 + row`. */
module Grids {
  import opened Wrappers
  import opened Geometry
  import opened Pieces

  type Grid = g: seq<Piece> | |g| == 81 witness seq(81, _ => Empty)

  function Get(g: Grid, s: Square): Piece {
    g[Index(s)]
  }

  /** The grid with square s set to p, and no other square changed. */
  function Set(g: Grid, s: Square, p: Piece): (r: Grid)
    ensures Get(r, s) == p
    ensures forall t :: t != s ==> Get(r, t) == Get(g, t)
  {
    IndexInjectiveAll(s);
    g[Index(s) := p]
  }

  lemma IndexInjectiveAll(s: Square)
    ensures forall t :: t != s ==> Index(t) != Index(s)
  {
    forall t | t != s
      ensures Index(t) != Index(s)
    {
      IndexInjective(s, t);
    }
  }

  /** Two grids that agree on every square are equal. */
  lemma GridExt(g: Grid, h: Grid)
    requires forall s :: Get(g, s) == Get(h, s)
    ensures g == h
  {
    forall i | 0 <= i < 81
      ensures g[i] == h[i]
    {
      assert Get(g, SquareAt(i)) == Get(h, SquareAt(i));
    }
  }

  /** The first King among the first n squares in column-major order. */
  function KingBefore(g: Grid, n: nat): (r: Option<Square>)
    requires n <= 81
    ensures r.Some? ==> Index(r.value) < n && Get(g, r.value) == King
    ensures r.Some? ==> forall j :: 0 <= j < Index(r.value) ==> g[j] != King
    ensures r.None? ==> forall j :: 0 <= j < n ==> g[j] != King
  {
    if n == 0 then None
    else match KingBefore(g, n - 1)
      case Some(k) => Some(k)
      case None => if g[n - 1] == King then Some(SquareAt(n - 1)) else None
  }

  /** Java `kingPosition`: the first King in column-major order, or None
      (Java null) when there is none. */
  function KingPosition(g: Grid): Option<Square> {
    KingBefore(g, |g|)
  }

  /** KingPosition finds a King exactly when the grid holds one. */
  lemma KingPositionSpec(g: Grid)
    ensures KingPosition(g).Some? ==> Get(g, KingPosition(g).value) == King
    ensures KingPosition(g).None? <==> forall s :: Get(g, s) != King
  {
    if KingPosition(g).None? {
      forall s
        ensures Get(g, s) != King
      {
        assert g[Index(s)] != King;
      }
    }
  }

  /** With at most one King on the board, KingPosition is that King. */
  lemma KingPositionUnique(g: Grid, k: Square)
    requires Get(g, k) == King
    requires forall t :: Get(g, t) == King ==> t == k
    ensures KingPosition(g) == Some(k)
  {
    KingPositionSpec(g);
  }

  /** Squares holding a piece of `side` (Java `pieceLocations`). */
  function PieceLocations(g: Grid, side: Side): (r: set<Square>)
    ensures forall s :: s in r <==> SideOf(Get(g, s)) == side
  {
    var r := set i | 0 <= i < 81 && SideOf(g[i]) == side :: SquareAt(i);
    assert forall s :: SideOf(Get(g, s)) == side ==> SquareAt(Index(s)) in r by {
      forall s | SideOf(Get(g, s)) == side
        ensures SquareAt(Index(s)) in r
      {
        assert SideOf(g[Index(s)]) == side;
      }
    }
    assert forall s :: SquareAt(Index(s)) == s by {
      forall s ensures SquareAt(Index(s)) == s {
        SquareAtIndex(s);
      }
    }
    r
  }

  /** Number of pieces of a side; the King counts for WHITE (Java `countSide`). */
  function CountSide(g: Grid, side: Side): nat {
    |PieceLocations(g, side)|
  }
}
