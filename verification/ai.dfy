/** The game-tree search of the automated player (Java `AI`): a static
    evaluation and a depth-limited alpha-beta search.

    The search works on one board, making and undoing moves on it.  Java
    `undo` does not reset the winner, so a winner declared while searching
    one move stays on the board while later moves are searched; the board
    is therefore passed through the search and handed back. */
module AI {
  import opened Wrappers
  import opened Geometry
  import opened Pieces
  import opened Grids
  import opened Boards
  import opened Legality
  import opened Play
  import opened MoveLaws

  /** Java `Integer.MAX_VALUE`, the search's infinity. */
  const INFTY: int := 2147483647
  /** Magnitude of a won position (positive for WHITE). */
  const WINNING_VALUE: int := INFTY - 20

  /** The values `staticScore` and the search can produce. */
  predicate IsScore(v: int) {
    v == INFTY || v == -INFTY || v == WINNING_VALUE || v == -WINNING_VALUE
  }

  /** The value of a win for `side`. */
  function WinFor(side: Side): int {
    if side == White then WINNING_VALUE else -WINNING_VALUE
  }

  /** Java `staticScore`.  Only decided or lopsided positions get a win
      value; every other position scores INFTY. */
  function StaticScore(b: Board): (v: int)
    ensures v == INFTY || v == WINNING_VALUE || v == -WINNING_VALUE
    ensures b.winner.Some? ==> v == WinFor(b.winner.value)
    ensures b.winner.None? && KingPosition(b.grid).None? ==> v == WinFor(Black)
    ensures b.winner.None? && KingPosition(b.grid).Some? && IsEdge(KingPosition(b.grid).value) ==> v == WinFor(White)
    ensures (&& b.winner.None? && KingPosition(b.grid).Some? && !IsEdge(KingPosition(b.grid).value)
             && CountSide(b.grid, Black) > CountSide(b.grid, White)) ==> v == WinFor(Black)
    ensures v == INFTY <==>
              && b.winner.None?
              && KingPosition(b.grid).Some? && !IsEdge(KingPosition(b.grid).value)
              && CountSide(b.grid, Black) <= CountSide(b.grid, White)
  {
    if b.winner == Some(White) then WINNING_VALUE
    else if b.winner == Some(Black) then -WINNING_VALUE
    else match KingPosition(b.grid)
      case None => -WINNING_VALUE
      case Some(k) =>
        if IsEdge(k) then WINNING_VALUE
        else if CountSide(b.grid, Black) > CountSide(b.grid, White) then -WINNING_VALUE
        else INFTY
  }

  /** Java `maxDepth`. */
  function MaxDepth(b: Board): (d: nat)
    ensures d > 0
  {
    4
  }

  /** A move searched at one level, the value its reply search returned,
      the board, window and recorded move it was searched with, and the
      board handed back once the move was undone. */
  datatype Child = Child(move: Move, value: int, board: Board, alpha: int, beta: int, found: Option<Move>, after: Board)

  /** The outcome of a search: its value, the board handed back, the move
      recorded so far (Java `_lastFoundMove`) and the moves searched at
      this level with their values, in order. */
  datatype Node = Node(score: int, board: Board, found: Option<Move>, trace: seq<Child>)

  /** The board has the same position, move count, history and limit: it
      may differ only in its winner and repetition flag. */
  predicate SamePosition(a: Board, b: Board) {
    a.grid == b.grid && a.turn == b.turn && a.moveCount == b.moveCount && a.history == b.history && a.limit == b.limit
  }

  /** Running maximum of `best` and the values of `t`, front to back. */
  function FoldMax(best: int, t: seq<Child>): (m: int)
    ensures m >= best
    ensures forall k :: 0 <= k < |t| ==> m >= t[k].value
    ensures m == best || exists k :: 0 <= k < |t| && m == t[k].value
    decreases |t|
  {
    if t == [] then best
    else FoldMax(if t[0].value > best then t[0].value else best, t[1..])
  }

  /** Running minimum of `best` and the values of `t`, front to back. */
  function FoldMin(best: int, t: seq<Child>): (m: int)
    ensures m <= best
    ensures forall k :: 0 <= k < |t| ==> m <= t[k].value
    ensures m == best || exists k :: 0 <= k < |t| && m == t[k].value
    decreases |t|
  {
    if t == [] then best
    else FoldMin(if t[0].value < best then t[0].value else best, t[1..])
  }

  /** The move of the last entry of `t` whose value is v. */
  function LastMatch(t: seq<Child>, v: int): (r: Option<Move>)
    ensures r.Some? <==> exists k :: 0 <= k < |t| && t[k].value == v
    ensures r.Some? ==> exists k :: 0 <= k < |t| && t[k].value == v && t[k].move == r.value &&
                                    forall j :: k < j < |t| ==> t[j].value != v
    decreases |t|
  {
    if t == [] then None
    else match LastMatch(t[1..], v)
      case Some(m) =>
        assert forall k :: 0 <= k < |t| - 1 ==> t[1..][k] == t[k + 1];
        Some(m)
      case None =>
        assert forall k :: 0 < k < |t| ==> t[k] == t[1..][k - 1];
        if t[0].value == v then Some(t[0].move) else None
  }

  /** Folding a trace with one more entry in front. */
  lemma FoldCons(a: int, c: Child, t: seq<Child>)
    ensures FoldMax(a, [c] + t) == FoldMax(if c.value > a then c.value else a, t)
    ensures FoldMin(a, [c] + t) == FoldMin(if c.value < a then c.value else a, t)
    ensures LastMatch([c] + t, a) == if LastMatch(t, a).Some? then LastMatch(t, a) else if c.value == a then Some(c.move) else None
  {
    assert ([c] + t)[1..] == t;
  }

  /** Folding the first k entries of a trace with one more entry in front. */
  lemma FoldShift(a: int, c: Child, rest: seq<Child>, t: seq<Child>, k: nat)
    requires t == [c] + rest && 0 < k <= |t|
    ensures FoldMax(a, t[..k]) == FoldMax(if c.value > a then c.value else a, rest[..k - 1])
    ensures FoldMin(a, t[..k]) == FoldMin(if c.value < a then c.value else a, rest[..k - 1])
  {
    assert t[..k] == [c] + rest[..k - 1];
    FoldCons(a, c, rest[..k - 1]);
  }

  /** Every move of the list is a legal move along a line on b. */
  predicate AllLegal(b: Board, moves: seq<Move>) {
    forall m :: m in moves ==> IsRookMove(m.from, m.to) && IsLegal(b, m.from, m.to)
  }

  /** Make, search and undo one move: the reply search gets `sense` and
      the current window. */
  function Explore(b: Board, m: Move, depth: nat, sense: int, alpha: int, beta: int, found: Option<Move>): (r: Result<Node, Fault>)
    requires depth > 0 && IsRookMove(m.from, m.to) && IsLegal(b, m.from, m.to)
    ensures r.Success? ==> SamePosition(r.value.board, b) && IsScore(r.value.score) && r.value.found == found
    decreases depth, 0, 0
  {
    var b1 :- ApplyMove(b, m.from, m.to);
    var child :- Search(b1, depth - 1, false, sense, alpha, beta, found);
    UndoRoundTrip(b, m.from, m.to);
    Success(child.(board := Undo(child.board), trace := []))
  }

  /** Java `findMove(board, depth, saveMove, sense, alpha, beta)`.  The
      board is handed back in the same position; `found` is the value of
      `_lastFoundMove` before the call. */
  function Search(b: Board, depth: nat, save: bool, sense: int, alpha: int, beta: int, found: Option<Move>): (r: Result<Node, Fault>)
    ensures r.Success? ==> SamePosition(r.value.board, b) && IsScore(r.value.score)
    ensures r.Success? && !save ==> r.value.found == found
    decreases depth, 2, 0
  {
    if depth == 0 || b.winner.Some? then Success(Node(StaticScore(b), b, found, []))
    else if sense == 1 then MaxLoop(b, LegalMoves(b, b.turn), depth, save, alpha, beta, -INFTY, found)
    else if sense == -1 then MinLoop(b, LegalMoves(b, b.turn), depth, save, alpha, beta, INFTY, found)
    else Success(Node(StaticScore(b), b, found, []))
  }

  /** The loop of the maximizing branch of `findMove` over `moves`, with
      best value `best` so far. */
  function MaxLoop(b: Board, moves: seq<Move>, depth: nat, save: bool, alpha: int, beta: int, best: int, found: Option<Move>): (r: Result<Node, Fault>)
    requires depth > 0 && AllLegal(b, moves) && IsScore(best)
    ensures r.Success? ==> SamePosition(r.value.board, b) && IsScore(r.value.score)
    ensures r.Success? && !save ==> r.value.found == found
    decreases depth, 1, |moves|
  {
    if moves == [] then Success(Node(best, b, found, []))
    else
      var m := moves[0];
      var child :- Explore(b, m, depth, -1, alpha, beta, found);
      var resp := child.score;
      var b2 := child.board;
      LegalDependsOnPosition(b, b2, m.from, m.to);
      assert AllLegal(b2, moves[1..]) by {
        forall m' | m' in moves[1..] { LegalDependsOnPosition(b, b2, m'.from, m'.to); }
      }
      if resp >= best then
        var found' := if save then Some(m) else found;
        var alpha' := if resp > alpha then resp else alpha;
        if beta <= alpha' then Success(Node(resp, b2, found', [Child(m, resp, b, alpha, beta, found, b2)]))
        else
          var rest :- MaxLoop(b2, moves[1..], depth, save, alpha', beta, resp, found');
          Success(rest.(trace := [Child(m, resp, b, alpha, beta, found, b2)] + rest.trace))
      else
        var rest :- MaxLoop(b2, moves[1..], depth, save, alpha, beta, best, found);
        Success(rest.(trace := [Child(m, resp, b, alpha, beta, found, b2)] + rest.trace))
  }

  /** The loop of the minimizing branch of `findMove` over `moves`, with
      best value `best` so far. */
  function MinLoop(b: Board, moves: seq<Move>, depth: nat, save: bool, alpha: int, beta: int, best: int, found: Option<Move>): (r: Result<Node, Fault>)
    requires depth > 0 && AllLegal(b, moves) && IsScore(best)
    ensures r.Success? ==> SamePosition(r.value.board, b) && IsScore(r.value.score)
    ensures r.Success? && !save ==> r.value.found == found
    decreases depth, 1, |moves|
  {
    if moves == [] then Success(Node(best, b, found, []))
    else
      var m := moves[0];
      var child :- Explore(b, m, depth, 1, alpha, beta, found);
      var resp := child.score;
      var b2 := child.board;
      LegalDependsOnPosition(b, b2, m.from, m.to);
      assert AllLegal(b2, moves[1..]) by {
        forall m' | m' in moves[1..] { LegalDependsOnPosition(b, b2, m'.from, m'.to); }
      }
      if resp <= best then
        var found' := if save then Some(m) else found;
        var beta' := if resp < beta then resp else beta;
        if beta' <= alpha then Success(Node(resp, b2, found', [Child(m, resp, b, alpha, beta, found, b2)]))
        else
          var rest :- MinLoop(b2, moves[1..], depth, save, alpha, beta', resp, found');
          Success(rest.(trace := [Child(m, resp, b, alpha, beta, found, b2)] + rest.trace))
      else
        var rest :- MinLoop(b2, moves[1..], depth, save, alpha, beta, best, found);
        Success(rest.(trace := [Child(m, resp, b, alpha, beta, found, b2)] + rest.trace))
  }

  /** The value of exploring a move is the value of the reply search run,
      with the same window and recorded move, on the board after the move. */
  lemma ExploreValue(b: Board, m: Move, depth: nat, sense: int, alpha: int, beta: int, found: Option<Move>)
    requires depth > 0 && IsRookMove(m.from, m.to) && IsLegal(b, m.from, m.to)
    requires Explore(b, m, depth, sense, alpha, beta, found).Success?
    ensures ApplyMove(b, m.from, m.to).Success?
    ensures Search(ApplyMove(b, m.from, m.to).value, depth - 1, false, sense, alpha, beta, found).Success?
    ensures Explore(b, m, depth, sense, alpha, beta, found).value.score ==
            Search(ApplyMove(b, m.from, m.to).value, depth - 1, false, sense, alpha, beta, found).value.score
  {
  }

  /** Exploring a move hands back the winner the reply search left on the
      board after the move: `undo` takes the move back but keeps the winner. */
  lemma ExploreWinner(b: Board, m: Move, depth: nat, sense: int, alpha: int, beta: int, found: Option<Move>)
    requires depth > 0 && IsRookMove(m.from, m.to) && IsLegal(b, m.from, m.to)
    requires Explore(b, m, depth, sense, alpha, beta, found).Success?
    ensures ApplyMove(b, m.from, m.to).Success?
    ensures Search(ApplyMove(b, m.from, m.to).value, depth - 1, false, sense, alpha, beta, found).Success?
    ensures Explore(b, m, depth, sense, alpha, beta, found).value.board.winner ==
            Search(ApplyMove(b, m.from, m.to).value, depth - 1, false, sense, alpha, beta, found).value.board.winner
  {
  }

  /** A move that wins leaves its winner on the board exploring it hands
      back, so the moves searched after it see the game as decided. */
  lemma MoveWinStaysVisible(b: Board, m: Move, depth: nat, sense: int, alpha: int, beta: int, found: Option<Move>)
    requires depth > 0 && IsRookMove(m.from, m.to) && IsLegal(b, m.from, m.to)
    requires Explore(b, m, depth, sense, alpha, beta, found).Success?
    requires ApplyMove(b, m.from, m.to).Success? && ApplyMove(b, m.from, m.to).value.winner.Some?
    ensures Explore(b, m, depth, sense, alpha, beta, found).value.board.winner == ApplyMove(b, m.from, m.to).value.winner
  {
    ExploreWinner(b, m, depth, sense, alpha, beta, found);
    SearchResult(ApplyMove(b, m.from, m.to).value, depth - 1, false, sense, alpha, beta, found);
  }

  /** On a board whose game is already decided, exploring a move is scored
      statically: its value is the static score of the board after the
      move, and a winner stays on the board handed back. */
  lemma ExploreDecided(b: Board, m: Move, depth: nat, sense: int, alpha: int, beta: int, found: Option<Move>)
    requires depth > 0 && IsRookMove(m.from, m.to) && IsLegal(b, m.from, m.to)
    requires Explore(b, m, depth, sense, alpha, beta, found).Success?
    requires b.winner.Some?
    ensures ApplyMove(b, m.from, m.to).Success? && ApplyMove(b, m.from, m.to).value.winner.Some?
    ensures Explore(b, m, depth, sense, alpha, beta, found).value.score == StaticScore(ApplyMove(b, m.from, m.to).value)
    ensures Explore(b, m, depth, sense, alpha, beta, found).value.board.winner == ApplyMove(b, m.from, m.to).value.winner
  {
    ExploreValue(b, m, depth, sense, alpha, beta, found);
    WinnerKept(b, m.from, m.to);
    MoveWinStaysVisible(b, m, depth, sense, alpha, beta, found);
    SearchResult(ApplyMove(b, m.from, m.to).value, depth - 1, false, sense, alpha, beta, found);
  }

  /** The entry c was searched as recorded: its move is legal on c.board,
      and making it, running the reply search with `sense` and c's window
      and undoing it gave c's value. */
  predicate Explored(c: Child, depth: nat, sense: int) {
    && depth > 0 && IsRookMove(c.move.from, c.move.to) && IsLegal(c.board, c.move.from, c.move.to)
    && Explore(c.board, c.move, depth, sense, c.alpha, c.beta, c.found).Success?
    && Explore(c.board, c.move, depth, sense, c.alpha, c.beta, c.found).value.score == c.value
    && Explore(c.board, c.move, depth, sense, c.alpha, c.beta, c.found).value.board == c.after
  }

  /** The entry c is searched right after p: on the board that exploring
      p handed back, and with p's move recorded when `saved`, otherwise with
      the recorded move p was searched with. */
  predicate Follows(p: Child, c: Child, saved: bool) {
    c.board == p.after && c.found == (if saved then Some(p.move) else p.found)
  }

  /** Java `findMove()`: search from the current position to `MaxDepth`
      as the maximizing side with the widest window, recording moves, and
      return the move recorded. */
  function FindMove(b: Board): (r: Result<Option<Move>, Fault>)
  {
    var n :- Search(b, MaxDepth(b), true, 1, -INFTY, INFTY, None);
    Success(n.found)
  }

  /** The legality of a list of moves depends only on the position. */
  lemma AllLegalSamePosition(b: Board, c: Board, moves: seq<Move>)
    requires AllLegal(b, moves) && SamePosition(b, c)
    ensures AllLegal(c, moves)
  {
    forall m | m in moves
      ensures IsLegal(c, m.from, m.to)
    {
      LegalDependsOnPosition(b, c, m.from, m.to);
    }
  }

  /** Prepending the entry of the first move to a trace of the remaining
      moves gives a trace of all the moves. */
  lemma TracePrefix(m: Move, moves: seq<Move>, rest: seq<Child>, t: seq<Child>)
    requires moves != [] && m == moves[0]
    requires |rest| <= |moves| - 1 && forall k :: 0 <= k < |rest| ==> rest[k].move == moves[k + 1]
    requires |t| == |rest| + 1 && t[0].move == m && t[1..] == rest
    ensures |t| <= |moves| && forall k :: 0 <= k < |t| ==> t[k].move == moves[k]
  {
    forall k | 0 < k < |t|
      ensures t[k].move == moves[k]
    {
      assert t[k] == rest[k - 1];
    }
  }

  /** A trace of score values with one more score value in front. */
  lemma TraceScores(rest: seq<Child>, t: seq<Child>)
    requires forall k :: 0 <= k < |rest| ==> IsScore(rest[k].value)
    requires |t| == |rest| + 1 && IsScore(t[0].value) && t[1..] == rest
    ensures forall k :: 0 <= k < |t| ==> IsScore(t[k].value)
  {
    forall k | 0 < k < |t|
      ensures IsScore(t[k].value)
    {
      assert t[k] == rest[k - 1];
    }
  }

  /** A trace of explored entries on boards in b's position, with one more
      in front. */
  lemma TraceExplored(b: Board, rest: seq<Child>, t: seq<Child>, depth: nat, sense: int)
    requires forall k :: 0 <= k < |rest| ==> Explored(rest[k], depth, sense) && SamePosition(rest[k].board, b)
    requires |t| == |rest| + 1 && Explored(t[0], depth, sense) && SamePosition(t[0].board, b) && t[1..] == rest
    ensures forall k :: 0 <= k < |t| ==> Explored(t[k], depth, sense) && SamePosition(t[k].board, b)
  {
    forall k | 0 < k < |t|
      ensures Explored(t[k], depth, sense) && SamePosition(t[k].board, b)
    {
      assert t[k] == rest[k - 1];
    }
  }

  /** One iteration of the maximizing loop, named once for the lemmas
      below: the first move is explored on b with the current window; a
      value no smaller than `best` becomes the best, raises alpha to it and,
      with save, records the move; the loop stops there once alpha reaches
      beta (`cut`) and otherwise goes on with the rest of the moves on the
      board handed back. */
  lemma MaxLoopStep(b: Board, moves: seq<Move>, depth: nat, save: bool, alpha: int, beta: int, best: int, found: Option<Move>)
    returns (child: Node, c: Child, alpha': int, best': int, found': Option<Move>, cut: bool)
    requires depth > 0 && AllLegal(b, moves) && IsScore(best) && moves != []
    requires MaxLoop(b, moves, depth, save, alpha, beta, best, found).Success?
    ensures Explore(b, moves[0], depth, -1, alpha, beta, found).Success?
    ensures child == Explore(b, moves[0], depth, -1, alpha, beta, found).value
    ensures c == Child(moves[0], child.score, b, alpha, beta, found, child.board) && Explored(c, depth, -1)
    ensures alpha' == if c.value >= best && c.value > alpha then c.value else alpha
    ensures best' == if c.value >= best then c.value else best
    ensures found' == if c.value >= best && save then Some(c.move) else found
    ensures cut <==> c.value >= best && beta <= alpha'
    ensures AllLegal(child.board, moves[1..]) && IsScore(best')
    ensures cut ==> MaxLoop(b, moves, depth, save, alpha, beta, best, found).value == Node(c.value, child.board, found', [c])
    ensures !cut ==> && MaxLoop(child.board, moves[1..], depth, save, alpha', beta, best', found').Success?
                     && MaxLoop(b, moves, depth, save, alpha, beta, best, found).value == MaxLoop(child.board, moves[1..], depth, save, alpha', beta, best', found').value.(trace := [c] + MaxLoop(child.board, moves[1..], depth, save, alpha', beta, best', found').value.trace)
  {
    child := Explore(b, moves[0], depth, -1, alpha, beta, found).value;
    c := Child(moves[0], child.score, b, alpha, beta, found, child.board);
    alpha' := if c.value >= best && c.value > alpha then c.value else alpha;
    best' := if c.value >= best then c.value else best;
    found' := if c.value >= best && save then Some(c.move) else found;
    cut := c.value >= best && beta <= alpha';
    AllLegalSamePosition(b, child.board, moves[1..]);
  }

  /** The first entry of the maximizing loop is searched on b itself, with
      the loop's window and recorded move. */
  lemma MaxLoopFirst(b: Board, moves: seq<Move>, depth: nat, save: bool, alpha: int, beta: int, best: int, found: Option<Move>)
    requires depth > 0 && AllLegal(b, moves) && IsScore(best)
    requires MaxLoop(b, moves, depth, save, alpha, beta, best, found).Success?
    ensures var n := MaxLoop(b, moves, depth, save, alpha, beta, best, found).value;
            n.trace != [] ==> n.trace[0].board == b && n.trace[0].alpha == alpha && n.trace[0].beta == beta && n.trace[0].found == found
  {
    if moves != [] {
      var child, c, alpha', best', found', cut := MaxLoopStep(b, moves, depth, save, alpha, beta, best, found);
    }
  }

  /** Each entry of the maximizing loop's trace is the value of a
      minimizing reply search of its move, on a board in b's position; the
      first is searched on b itself with the loop's window. */
  lemma {:induction false} MaxLoopChildren(b: Board, moves: seq<Move>, depth: nat, save: bool, alpha: int, beta: int, best: int, found: Option<Move>)
    requires depth > 0 && AllLegal(b, moves) && IsScore(best)
    requires MaxLoop(b, moves, depth, save, alpha, beta, best, found).Success?
    ensures var n := MaxLoop(b, moves, depth, save, alpha, beta, best, found).value;
            && (forall k :: 0 <= k < |n.trace| ==> Explored(n.trace[k], depth, -1) && SamePosition(n.trace[k].board, b))
            && (n.trace != [] ==> n.trace[0].board == b && n.trace[0].alpha == alpha && n.trace[0].beta == beta && n.trace[0].found == found)
    decreases |moves|
  {
    if moves != [] {
      var child, c, alpha', best', found', cut := MaxLoopStep(b, moves, depth, save, alpha, beta, best, found);
      var n := MaxLoop(b, moves, depth, save, alpha, beta, best, found).value;
      if !cut {
        MaxLoopChildren(child.board, moves[1..], depth, save, alpha', beta, best', found');
        var rest := MaxLoop(child.board, moves[1..], depth, save, alpha', beta, best', found').value;
        TraceExplored(b, rest.trace, n.trace, depth, -1);
      }
    }
  }

  /** Each entry of t follows the one before it, where an entry's move
      is recorded when save is set and its value reaches the running
      maximum of `best` and the values before it. */
  predicate MaxThreaded(t: seq<Child>, save: bool, best: int)
    decreases |t|
  {
    |t| <= 1 ||
    (&& Follows(t[0], t[1], save && t[0].value >= best)
     && MaxThreaded(t[1..], save, if t[0].value > best then t[0].value else best))
  }

  /** MaxThreaded, entry by entry: entry i + 1 follows entry i. */
  lemma {:induction false} MaxThreadedAt(t: seq<Child>, save: bool, best: int, i: nat)
    requires MaxThreaded(t, save, best) && i + 1 < |t|
    ensures Follows(t[i], t[i + 1], save && t[i].value >= FoldMax(best, t[..i]))
    decreases i
  {
    if i == 0 {
      assert t[..0] == [];
    } else {
      var best' := if t[0].value > best then t[0].value else best;
      MaxThreadedAt(t[1..], save, best', i - 1);
      assert t[..i] == [t[0]] + t[1..][..i - 1];
      FoldCons(best, t[0], t[1..][..i - 1]);
    }
  }

  /** Siblings in the maximizing loop: each entry after the first is
      searched on the board that exploring the entry before it handed back,
      so a winner that entry's reply search left on the board is still
      there, and with the recorded move as that entry left it: its own move
      when save is set and its value reached the running maximum, otherwise
      the recorded move it was searched with. */
  lemma {:induction false} MaxLoopSiblings(b: Board, moves: seq<Move>, depth: nat, save: bool, alpha: int, beta: int, best: int, found: Option<Move>)
    requires depth > 0 && AllLegal(b, moves) && IsScore(best)
    requires MaxLoop(b, moves, depth, save, alpha, beta, best, found).Success?
    ensures var n := MaxLoop(b, moves, depth, save, alpha, beta, best, found).value;
            MaxThreaded(n.trace, save, best)
    decreases |moves|
  {
    if moves != [] {
      var child, c, alpha', best', found', cut := MaxLoopStep(b, moves, depth, save, alpha, beta, best, found);
      var n := MaxLoop(b, moves, depth, save, alpha, beta, best, found).value;
      if !cut {
        MaxLoopSiblings(child.board, moves[1..], depth, save, alpha', beta, best', found');
        MaxLoopFirst(child.board, moves[1..], depth, save, alpha', beta, best', found');
        var rest := MaxLoop(child.board, moves[1..], depth, save, alpha', beta, best', found').value;
        assert n.trace[1..] == rest.trace;
      }
    }
  }

  /** Entry k of the window argument for the maximizing loop. */
  lemma MaxWindowAt(alpha: int, alpha2: int, beta: int, c: Child, rest: seq<Child>, t: seq<Child>, k: nat)
    requires t == [c] + rest && c.alpha == alpha && c.beta == beta
    requires alpha2 == if c.value > alpha then c.value else alpha
    requires k < |t|
    requires k > 0 ==> rest[k - 1].beta == beta && rest[k - 1].alpha == FoldMax(alpha2, rest[..k - 1])
    ensures t[k].beta == beta && t[k].alpha == FoldMax(alpha, t[..k])
  {
    if k == 0 {
      assert t[..0] == [];
    } else {
      assert FoldMax(alpha, t[..k]) == FoldMax(alpha2, rest[..k - 1]) by {
        FoldShift(alpha, c, rest, t, k);
      }
      assert t[k] == rest[k - 1];
    }
  }

  /** One step of the window argument for the maximizing loop: alpha2 is
      the window's lower end after the entry c. */
  lemma MaxWindowStep(alpha: int, alpha2: int, beta: int, c: Child, rest: seq<Child>, t: seq<Child>)
    requires t == [c] + rest && c.alpha == alpha && c.beta == beta
    requires alpha2 == if c.value > alpha then c.value else alpha
    requires forall k :: 0 <= k < |rest| ==> rest[k].beta == beta && rest[k].alpha == FoldMax(alpha2, rest[..k])
    ensures forall k :: 0 <= k < |t| ==> t[k].beta == beta && t[k].alpha == FoldMax(alpha, t[..k])
  {
    forall k | 0 <= k < |t|
      ensures t[k].beta == beta && t[k].alpha == FoldMax(alpha, t[..k])
    {
      MaxWindowAt(alpha, alpha2, beta, c, rest, t, k);
    }
  }

  /** The window of each search in the maximizing loop, when best <= alpha
      as in every search: beta stays as it is, and alpha is raised to the
      running maximum of alpha and the values found before. */
  lemma {:induction false} MaxLoopWindow(b: Board, moves: seq<Move>, depth: nat, save: bool, alpha: int, beta: int, best: int, found: Option<Move>)
    requires depth > 0 && AllLegal(b, moves) && IsScore(best)
    requires MaxLoop(b, moves, depth, save, alpha, beta, best, found).Success?
    requires best <= alpha
    ensures var n := MaxLoop(b, moves, depth, save, alpha, beta, best, found).value;
            forall k :: 0 <= k < |n.trace| ==> n.trace[k].beta == beta && n.trace[k].alpha == FoldMax(alpha, n.trace[..k])
    decreases |moves|
  {
    if moves != [] {
      var child, c, alpha', best', found', cut := MaxLoopStep(b, moves, depth, save, alpha, beta, best, found);
      var n := MaxLoop(b, moves, depth, save, alpha, beta, best, found).value;
      if cut {
        assert n.trace[..0] == [];
      } else {
        MaxLoopWindow(child.board, moves[1..], depth, save, alpha', beta, best', found');
        var rest := MaxLoop(child.board, moves[1..], depth, save, alpha', beta, best', found').value;
        MaxWindowStep(alpha, alpha', beta, c, rest.trace, n.trace);
      }
    }
  }

  /** The maximizing loop searches a prefix of its moves, at least one when
      there is one. */
  lemma {:induction false} MaxLoopPrefix(b: Board, moves: seq<Move>, depth: nat, save: bool, alpha: int, beta: int, best: int, found: Option<Move>)
    requires depth > 0 && AllLegal(b, moves) && IsScore(best)
    requires MaxLoop(b, moves, depth, save, alpha, beta, best, found).Success?
    ensures var n := MaxLoop(b, moves, depth, save, alpha, beta, best, found).value;
            && |n.trace| <= |moves| && (forall k :: 0 <= k < |n.trace| ==> n.trace[k].move == moves[k])
            && (moves != [] ==> n.trace != [])
    decreases |moves|
  {
    if moves != [] {
      var child, c, alpha', best', found', cut := MaxLoopStep(b, moves, depth, save, alpha, beta, best, found);
      var n := MaxLoop(b, moves, depth, save, alpha, beta, best, found).value;
      if !cut {
        MaxLoopPrefix(child.board, moves[1..], depth, save, alpha', beta, best', found');
        var rest := MaxLoop(child.board, moves[1..], depth, save, alpha', beta, best', found').value;
        TracePrefix(moves[0], moves, rest.trace, n.trace);
      }
    }
  }

  /** Every value the maximizing loop finds is a score value. */
  lemma {:induction false} MaxLoopScores(b: Board, moves: seq<Move>, depth: nat, save: bool, alpha: int, beta: int, best: int, found: Option<Move>)
    requires depth > 0 && AllLegal(b, moves) && IsScore(best)
    requires MaxLoop(b, moves, depth, save, alpha, beta, best, found).Success?
    ensures var n := MaxLoop(b, moves, depth, save, alpha, beta, best, found).value;
            forall k :: 0 <= k < |n.trace| ==> IsScore(n.trace[k].value)
    decreases |moves|
  {
    if moves != [] {
      var child, c, alpha', best', found', cut := MaxLoopStep(b, moves, depth, save, alpha, beta, best, found);
      var n := MaxLoop(b, moves, depth, save, alpha, beta, best, found).value;
      if !cut {
        MaxLoopScores(child.board, moves[1..], depth, save, alpha', beta, best', found');
        var rest := MaxLoop(child.board, moves[1..], depth, save, alpha', beta, best', found').value;
        TraceScores(rest.trace, n.trace);
      }
    }
  }

  /** The maximizing loop returns the largest of `best` and the values of
      the moves it searched. */
  lemma {:induction false} MaxLoopValue(b: Board, moves: seq<Move>, depth: nat, save: bool, alpha: int, beta: int, best: int, found: Option<Move>)
    requires depth > 0 && AllLegal(b, moves) && IsScore(best)
    requires MaxLoop(b, moves, depth, save, alpha, beta, best, found).Success?
    ensures var n := MaxLoop(b, moves, depth, save, alpha, beta, best, found).value;
            n.score == FoldMax(best, n.trace)
    decreases |moves|
  {
    if moves != [] {
      var child, c, alpha', best', found', cut := MaxLoopStep(b, moves, depth, save, alpha, beta, best, found);
      var n := MaxLoop(b, moves, depth, save, alpha, beta, best, found).value;
      if cut {
        FoldCons(best, c, []);
      } else {
        MaxLoopValue(child.board, moves[1..], depth, save, alpha', beta, best', found');
        var rest := MaxLoop(child.board, moves[1..], depth, save, alpha', beta, best', found').value;
        FoldCons(best, c, rest.trace);
      }
    }
  }

  /** With save set, the maximizing loop records the move of the last
      searched entry whose value is the loop's result; if none has it, the
      recorded move stays as it was. */
  lemma {:induction false} MaxLoopFound(b: Board, moves: seq<Move>, depth: nat, save: bool, alpha: int, beta: int, best: int, found: Option<Move>)
    requires depth > 0 && AllLegal(b, moves) && IsScore(best)
    requires MaxLoop(b, moves, depth, save, alpha, beta, best, found).Success?
    ensures var n := MaxLoop(b, moves, depth, save, alpha, beta, best, found).value;
            save ==> n.found == if LastMatch(n.trace, n.score).Some? then LastMatch(n.trace, n.score) else found
    decreases |moves|
  {
    if moves != [] && save {
      var child, c, alpha', best', found', cut := MaxLoopStep(b, moves, depth, save, alpha, beta, best, found);
      var n := MaxLoop(b, moves, depth, save, alpha, beta, best, found).value;
      if cut {
        FoldCons(n.score, c, []);
      } else {
        MaxLoopFound(child.board, moves[1..], depth, save, alpha', beta, best', found');
        MaxLoopValue(child.board, moves[1..], depth, save, alpha', beta, best', found');
        var rest := MaxLoop(child.board, moves[1..], depth, save, alpha', beta, best', found').value;
        FoldCons(n.score, c, rest.trace);
      }
    }
  }

  /** One step of the cutoff argument for the maximizing loop: alpha2 is
      the window's lower end after the entry c. */
  lemma MaxCutStep(alpha: int, alpha2: int, beta: int, c: Child, rest: seq<Child>, t: seq<Child>)
    requires t == [c] + rest
    requires alpha2 == if c.value > alpha then c.value else alpha
    requires alpha2 < beta
    requires forall k :: 0 < k < |rest| ==> FoldMax(alpha2, rest[..k]) < beta
    ensures forall k :: 0 < k < |t| ==> FoldMax(alpha, t[..k]) < beta
    ensures FoldMax(alpha, t) == FoldMax(alpha2, rest)
  {
    FoldCons(alpha, c, rest);
    forall k | 0 < k < |t|
      ensures FoldMax(alpha, t[..k]) < beta
    {
      assert t[..k] == [c] + rest[..k - 1];
      FoldCons(alpha, c, rest[..k - 1]);
    }
  }

  /** Alpha-beta cutoff in the maximizing loop, for a window alpha < beta
      with best <= alpha: the loop goes on past every searched move while
      the running maximum stays below beta, and it stops early only once
      the running maximum reaches beta. */
  lemma {:induction false} MaxLoopCutoff(b: Board, moves: seq<Move>, depth: nat, save: bool, alpha: int, beta: int, best: int, found: Option<Move>)
    requires depth > 0 && AllLegal(b, moves) && IsScore(best)
    requires MaxLoop(b, moves, depth, save, alpha, beta, best, found).Success?
    requires best <= alpha < beta
    ensures var n := MaxLoop(b, moves, depth, save, alpha, beta, best, found).value;
            && (forall k :: 0 < k < |n.trace| ==> FoldMax(alpha, n.trace[..k]) < beta)
            && (|n.trace| < |moves| ==> beta <= FoldMax(alpha, n.trace))
    decreases |moves|
  {
    if moves != [] {
      var child, c, alpha', best', found', cut := MaxLoopStep(b, moves, depth, save, alpha, beta, best, found);
      var n := MaxLoop(b, moves, depth, save, alpha, beta, best, found).value;
      if cut {
        FoldCons(alpha, c, []);
      } else {
        MaxLoopCutoff(child.board, moves[1..], depth, save, alpha', beta, best', found');
        var rest := MaxLoop(child.board, moves[1..], depth, save, alpha', beta, best', found').value;
        MaxCutStep(alpha, alpha', beta, c, rest.trace, n.trace);
      }
    }
  }

  /** One iteration of the minimizing loop, named once for the lemmas
      below: the first move is explored on b with the current window; a
      value no greater than `best` becomes the best, lowers beta to it and,
      with save, records the move; the loop stops there once beta falls to
      alpha (`cut`) and otherwise goes on with the rest of the moves on the
      board handed back. */
  lemma MinLoopStep(b: Board, moves: seq<Move>, depth: nat, save: bool, alpha: int, beta: int, best: int, found: Option<Move>)
    returns (child: Node, c: Child, beta': int, best': int, found': Option<Move>, cut: bool)
    requires depth > 0 && AllLegal(b, moves) && IsScore(best) && moves != []
    requires MinLoop(b, moves, depth, save, alpha, beta, best, found).Success?
    ensures Explore(b, moves[0], depth, 1, alpha, beta, found).Success?
    ensures child == Explore(b, moves[0], depth, 1, alpha, beta, found).value
    ensures c == Child(moves[0], child.score, b, alpha, beta, found, child.board) && Explored(c, depth, 1)
    ensures beta' == if c.value <= best && c.value < beta then c.value else beta
    ensures best' == if c.value <= best then c.value else best
    ensures found' == if c.value <= best && save then Some(c.move) else found
    ensures cut <==> c.value <= best && beta' <= alpha
    ensures AllLegal(child.board, moves[1..]) && IsScore(best')
    ensures cut ==> MinLoop(b, moves, depth, save, alpha, beta, best, found).value == Node(c.value, child.board, found', [c])
    ensures !cut ==> && MinLoop(child.board, moves[1..], depth, save, alpha, beta', best', found').Success?
                     && MinLoop(b, moves, depth, save, alpha, beta, best, found).value == MinLoop(child.board, moves[1..], depth, save, alpha, beta', best', found').value.(trace := [c] + MinLoop(child.board, moves[1..], depth, save, alpha, beta', best', found').value.trace)
  {
    child := Explore(b, moves[0], depth, 1, alpha, beta, found).value;
    c := Child(moves[0], child.score, b, alpha, beta, found, child.board);
    beta' := if c.value <= best && c.value < beta then c.value else beta;
    best' := if c.value <= best then c.value else best;
    found' := if c.value <= best && save then Some(c.move) else found;
    cut := c.value <= best && beta' <= alpha;
    AllLegalSamePosition(b, child.board, moves[1..]);
  }

  /** The first entry of the minimizing loop is searched on b itself, with
      the loop's window and recorded move. */
  lemma MinLoopFirst(b: Board, moves: seq<Move>, depth: nat, save: bool, alpha: int, beta: int, best: int, found: Option<Move>)
    requires depth > 0 && AllLegal(b, moves) && IsScore(best)
    requires MinLoop(b, moves, depth, save, alpha, beta, best, found).Success?
    ensures var n := MinLoop(b, moves, depth, save, alpha, beta, best, found).value;
            n.trace != [] ==> n.trace[0].board == b && n.trace[0].alpha == alpha && n.trace[0].beta == beta && n.trace[0].found == found
  {
    if moves != [] {
      var child, c, beta', best', found', cut := MinLoopStep(b, moves, depth, save, alpha, beta, best, found);
    }
  }

  /** Each entry of the minimizing loop's trace is the value of a
      maximizing reply search of its move, on a board in b's position; the
      first is searched on b itself with the loop's window. */
  lemma {:induction false} MinLoopChildren(b: Board, moves: seq<Move>, depth: nat, save: bool, alpha: int, beta: int, best: int, found: Option<Move>)
    requires depth > 0 && AllLegal(b, moves) && IsScore(best)
    requires MinLoop(b, moves, depth, save, alpha, beta, best, found).Success?
    ensures var n := MinLoop(b, moves, depth, save, alpha, beta, best, found).value;
            && (forall k :: 0 <= k < |n.trace| ==> Explored(n.trace[k], depth, 1) && SamePosition(n.trace[k].board, b))
            && (n.trace != [] ==> n.trace[0].board == b && n.trace[0].alpha == alpha && n.trace[0].beta == beta && n.trace[0].found == found)
    decreases |moves|
  {
    if moves != [] {
      var child, c, beta', best', found', cut := MinLoopStep(b, moves, depth, save, alpha, beta, best, found);
      var n := MinLoop(b, moves, depth, save, alpha, beta, best, found).value;
      if !cut {
        MinLoopChildren(child.board, moves[1..], depth, save, alpha, beta', best', found');
        var rest := MinLoop(child.board, moves[1..], depth, save, alpha, beta', best', found').value;
        TraceExplored(b, rest.trace, n.trace, depth, 1);
      }
    }
  }

  /** Each entry of t follows the one before it, where an entry's move
      is recorded when save is set and its value reaches the running
      minimum of `best` and the values before it. */
  predicate MinThreaded(t: seq<Child>, save: bool, best: int)
    decreases |t|
  {
    |t| <= 1 ||
    (&& Follows(t[0], t[1], save && t[0].value <= best)
     && MinThreaded(t[1..], save, if t[0].value < best then t[0].value else best))
  }

  /** MinThreaded, entry by entry: entry i + 1 follows entry i. */
  lemma {:induction false} MinThreadedAt(t: seq<Child>, save: bool, best: int, i: nat)
    requires MinThreaded(t, save, best) && i + 1 < |t|
    ensures Follows(t[i], t[i + 1], save && t[i].value <= FoldMin(best, t[..i]))
    decreases i
  {
    if i == 0 {
      assert t[..0] == [];
    } else {
      var best' := if t[0].value < best then t[0].value else best;
      MinThreadedAt(t[1..], save, best', i - 1);
      assert t[..i] == [t[0]] + t[1..][..i - 1];
      FoldCons(best, t[0], t[1..][..i - 1]);
    }
  }

  /** Siblings in the minimizing loop: each entry after the first is
      searched on the board that exploring the entry before it handed back,
      so a winner that entry's reply search left on the board is still
      there, and with the recorded move as that entry left it: its own move
      when save is set and its value reached the running minimum, otherwise
      the recorded move it was searched with. */
  lemma {:induction false} MinLoopSiblings(b: Board, moves: seq<Move>, depth: nat, save: bool, alpha: int, beta: int, best: int, found: Option<Move>)
    requires depth > 0 && AllLegal(b, moves) && IsScore(best)
    requires MinLoop(b, moves, depth, save, alpha, beta, best, found).Success?
    ensures var n := MinLoop(b, moves, depth, save, alpha, beta, best, found).value;
            MinThreaded(n.trace, save, best)
    decreases |moves|
  {
    if moves != [] {
      var child, c, beta', best', found', cut := MinLoopStep(b, moves, depth, save, alpha, beta, best, found);
      var n := MinLoop(b, moves, depth, save, alpha, beta, best, found).value;
      if !cut {
        MinLoopSiblings(child.board, moves[1..], depth, save, alpha, beta', best', found');
        MinLoopFirst(child.board, moves[1..], depth, save, alpha, beta', best', found');
        var rest := MinLoop(child.board, moves[1..], depth, save, alpha, beta', best', found').value;
        assert n.trace[1..] == rest.trace;
      }
    }
  }

  /** Entry k of the window argument for the minimizing loop. */
  lemma MinWindowAt(alpha: int, beta: int, beta2: int, c: Child, rest: seq<Child>, t: seq<Child>, k: nat)
    requires t == [c] + rest && c.alpha == alpha && c.beta == beta
    requires beta2 == if c.value < beta then c.value else beta
    requires k < |t|
    requires k > 0 ==> rest[k - 1].alpha == alpha && rest[k - 1].beta == FoldMin(beta2, rest[..k - 1])
    ensures t[k].alpha == alpha && t[k].beta == FoldMin(beta, t[..k])
  {
    if k == 0 {
      assert t[..0] == [];
    } else {
      assert FoldMin(beta, t[..k]) == FoldMin(beta2, rest[..k - 1]) by {
        FoldShift(beta, c, rest, t, k);
      }
      assert t[k] == rest[k - 1];
    }
  }

  /** One step of the window argument for the minimizing loop: beta2 is
      the window's upper end after the entry c. */
  lemma MinWindowStep(alpha: int, beta: int, beta2: int, c: Child, rest: seq<Child>, t: seq<Child>)
    requires t == [c] + rest && c.alpha == alpha && c.beta == beta
    requires beta2 == if c.value < beta then c.value else beta
    requires forall k :: 0 <= k < |rest| ==> rest[k].alpha == alpha && rest[k].beta == FoldMin(beta2, rest[..k])
    ensures forall k :: 0 <= k < |t| ==> t[k].alpha == alpha && t[k].beta == FoldMin(beta, t[..k])
  {
    forall k | 0 <= k < |t|
      ensures t[k].alpha == alpha && t[k].beta == FoldMin(beta, t[..k])
    {
      MinWindowAt(alpha, beta, beta2, c, rest, t, k);
    }
  }

  /** The window of each search in the minimizing loop, when beta <= best
      as in every search: alpha stays as it is, and beta is lowered to the
      running minimum of beta and the values found before. */
  lemma {:induction false} MinLoopWindow(b: Board, moves: seq<Move>, depth: nat, save: bool, alpha: int, beta: int, best: int, found: Option<Move>)
    requires depth > 0 && AllLegal(b, moves) && IsScore(best)
    requires MinLoop(b, moves, depth, save, alpha, beta, best, found).Success?
    requires beta <= best
    ensures var n := MinLoop(b, moves, depth, save, alpha, beta, best, found).value;
            forall k :: 0 <= k < |n.trace| ==> n.trace[k].alpha == alpha && n.trace[k].beta == FoldMin(beta, n.trace[..k])
    decreases |moves|
  {
    if moves != [] {
      var child, c, beta', best', found', cut := MinLoopStep(b, moves, depth, save, alpha, beta, best, found);
      var n := MinLoop(b, moves, depth, save, alpha, beta, best, found).value;
      if cut {
        assert n.trace[..0] == [];
      } else {
        MinLoopWindow(child.board, moves[1..], depth, save, alpha, beta', best', found');
        var rest := MinLoop(child.board, moves[1..], depth, save, alpha, beta', best', found').value;
        MinWindowStep(alpha, beta, beta', c, rest.trace, n.trace);
      }
    }
  }

  /** The minimizing loop searches a prefix of its moves, at least one when
      there is one. */
  lemma {:induction false} MinLoopPrefix(b: Board, moves: seq<Move>, depth: nat, save: bool, alpha: int, beta: int, best: int, found: Option<Move>)
    requires depth > 0 && AllLegal(b, moves) && IsScore(best)
    requires MinLoop(b, moves, depth, save, alpha, beta, best, found).Success?
    ensures var n := MinLoop(b, moves, depth, save, alpha, beta, best, found).value;
            && |n.trace| <= |moves| && (forall k :: 0 <= k < |n.trace| ==> n.trace[k].move == moves[k])
            && (moves != [] ==> n.trace != [])
    decreases |moves|
  {
    if moves != [] {
      var child, c, beta', best', found', cut := MinLoopStep(b, moves, depth, save, alpha, beta, best, found);
      var n := MinLoop(b, moves, depth, save, alpha, beta, best, found).value;
      if !cut {
        MinLoopPrefix(child.board, moves[1..], depth, save, alpha, beta', best', found');
        var rest := MinLoop(child.board, moves[1..], depth, save, alpha, beta', best', found').value;
        TracePrefix(moves[0], moves, rest.trace, n.trace);
      }
    }
  }

  /** Every value the minimizing loop finds is a score value. */
  lemma {:induction false} MinLoopScores(b: Board, moves: seq<Move>, depth: nat, save: bool, alpha: int, beta: int, best: int, found: Option<Move>)
    requires depth > 0 && AllLegal(b, moves) && IsScore(best)
    requires MinLoop(b, moves, depth, save, alpha, beta, best, found).Success?
    ensures var n := MinLoop(b, moves, depth, save, alpha, beta, best, found).value;
            forall k :: 0 <= k < |n.trace| ==> IsScore(n.trace[k].value)
    decreases |moves|
  {
    if moves != [] {
      var child, c, beta', best', found', cut := MinLoopStep(b, moves, depth, save, alpha, beta, best, found);
      var n := MinLoop(b, moves, depth, save, alpha, beta, best, found).value;
      if !cut {
        MinLoopScores(child.board, moves[1..], depth, save, alpha, beta', best', found');
        var rest := MinLoop(child.board, moves[1..], depth, save, alpha, beta', best', found').value;
        TraceScores(rest.trace, n.trace);
      }
    }
  }

  /** The minimizing loop returns the smallest of `best` and the values of
      the moves it searched. */
  lemma {:induction false} MinLoopValue(b: Board, moves: seq<Move>, depth: nat, save: bool, alpha: int, beta: int, best: int, found: Option<Move>)
    requires depth > 0 && AllLegal(b, moves) && IsScore(best)
    requires MinLoop(b, moves, depth, save, alpha, beta, best, found).Success?
    ensures var n := MinLoop(b, moves, depth, save, alpha, beta, best, found).value;
            n.score == FoldMin(best, n.trace)
    decreases |moves|
  {
    if moves != [] {
      var child, c, beta', best', found', cut := MinLoopStep(b, moves, depth, save, alpha, beta, best, found);
      var n := MinLoop(b, moves, depth, save, alpha, beta, best, found).value;
      if cut {
        FoldCons(best, c, []);
      } else {
        MinLoopValue(child.board, moves[1..], depth, save, alpha, beta', best', found');
        var rest := MinLoop(child.board, moves[1..], depth, save, alpha, beta', best', found').value;
        FoldCons(best, c, rest.trace);
      }
    }
  }

  /** With save set, the minimizing loop records the move of the last
      searched entry whose value is the loop's result; if none has it, the
      recorded move stays as it was. */
  lemma {:induction false} MinLoopFound(b: Board, moves: seq<Move>, depth: nat, save: bool, alpha: int, beta: int, best: int, found: Option<Move>)
    requires depth > 0 && AllLegal(b, moves) && IsScore(best)
    requires MinLoop(b, moves, depth, save, alpha, beta, best, found).Success?
    ensures var n := MinLoop(b, moves, depth, save, alpha, beta, best, found).value;
            save ==> n.found == if LastMatch(n.trace, n.score).Some? then LastMatch(n.trace, n.score) else found
    decreases |moves|
  {
    if moves != [] && save {
      var child, c, beta', best', found', cut := MinLoopStep(b, moves, depth, save, alpha, beta, best, found);
      var n := MinLoop(b, moves, depth, save, alpha, beta, best, found).value;
      if cut {
        FoldCons(n.score, c, []);
      } else {
        MinLoopFound(child.board, moves[1..], depth, save, alpha, beta', best', found');
        MinLoopValue(child.board, moves[1..], depth, save, alpha, beta', best', found');
        var rest := MinLoop(child.board, moves[1..], depth, save, alpha, beta', best', found').value;
        FoldCons(n.score, c, rest.trace);
      }
    }
  }

  /** One step of the cutoff argument for the minimizing loop: beta2 is
      the window's upper end after the entry c. */
  lemma MinCutStep(alpha: int, beta: int, beta2: int, c: Child, rest: seq<Child>, t: seq<Child>)
    requires t == [c] + rest
    requires beta2 == if c.value < beta then c.value else beta
    requires alpha < beta2
    requires forall k :: 0 < k < |rest| ==> alpha < FoldMin(beta2, rest[..k])
    ensures forall k :: 0 < k < |t| ==> alpha < FoldMin(beta, t[..k])
    ensures FoldMin(beta, t) == FoldMin(beta2, rest)
  {
    FoldCons(beta, c, rest);
    forall k | 0 < k < |t|
      ensures alpha < FoldMin(beta, t[..k])
    {
      assert t[..k] == [c] + rest[..k - 1];
      FoldCons(beta, c, rest[..k - 1]);
    }
  }

  /** Alpha-beta cutoff in the minimizing loop, for a window alpha < beta
      with beta <= best: the loop goes on past every searched move while
      the running minimum stays above alpha, and it stops early only once
      the running minimum falls to alpha. */
  lemma {:induction false} MinLoopCutoff(b: Board, moves: seq<Move>, depth: nat, save: bool, alpha: int, beta: int, best: int, found: Option<Move>)
    requires depth > 0 && AllLegal(b, moves) && IsScore(best)
    requires MinLoop(b, moves, depth, save, alpha, beta, best, found).Success?
    requires alpha < beta <= best
    ensures var n := MinLoop(b, moves, depth, save, alpha, beta, best, found).value;
            && (forall k :: 0 < k < |n.trace| ==> alpha < FoldMin(beta, n.trace[..k]))
            && (|n.trace| < |moves| ==> FoldMin(beta, n.trace) <= alpha)
    decreases |moves|
  {
    if moves != [] {
      var child, c, beta', best', found', cut := MinLoopStep(b, moves, depth, save, alpha, beta, best, found);
      var n := MinLoop(b, moves, depth, save, alpha, beta, best, found).value;
      if cut {
        FoldCons(beta, c, []);
      } else {
        MinLoopCutoff(child.board, moves[1..], depth, save, alpha, beta', best', found');
        var rest := MinLoop(child.board, moves[1..], depth, save, alpha, beta', best', found').value;
        MinCutStep(alpha, beta, beta', c, rest.trace, n.trace);
      }
    }
  }

  /** What one search returns.  At depth 0, once a winner is known, or for
      a `sense` other than 1 and -1, the static score of the board, with
      nothing searched.  Otherwise the legal moves of the side to move are
      searched in order, the maximum (sense 1) or minimum (sense -1) of the
      values found is returned, starting from -INFTY or INFTY, and with
      `save` the move recorded is the last one searched that attains that
      value. */
  lemma SearchResult(b: Board, depth: nat, save: bool, sense: int, alpha: int, beta: int, found: Option<Move>)
    requires Search(b, depth, save, sense, alpha, beta, found).Success?
    ensures var n := Search(b, depth, save, sense, alpha, beta, found).value;
            depth == 0 || b.winner.Some? || (sense != 1 && sense != -1) ==>
              n.score == StaticScore(b) && n.board == b && n.found == found && n.trace == []
    ensures var n := Search(b, depth, save, sense, alpha, beta, found).value;
            depth > 0 && b.winner.None? && (sense == 1 || sense == -1) ==>
              && |n.trace| <= |LegalMoves(b, b.turn)|
              && (forall k :: 0 <= k < |n.trace| ==> n.trace[k].move == LegalMoves(b, b.turn)[k])
              && (HasMove(b, b.turn) ==> n.trace != [])
              && (forall k :: 0 <= k < |n.trace| ==> IsScore(n.trace[k].value))
              && n.score == (if sense == 1 then FoldMax(-INFTY, n.trace) else FoldMin(INFTY, n.trace))
              && (save ==> n.found == if LastMatch(n.trace, n.score).Some? then LastMatch(n.trace, n.score) else found)
  {
    if depth > 0 && b.winner.None? {
      var moves := LegalMoves(b, b.turn);
      if sense == 1 {
        MaxLoopPrefix(b, moves, depth, save, alpha, beta, -INFTY, found);
        MaxLoopScores(b, moves, depth, save, alpha, beta, -INFTY, found);
        MaxLoopValue(b, moves, depth, save, alpha, beta, -INFTY, found);
        MaxLoopFound(b, moves, depth, save, alpha, beta, -INFTY, found);
      } else if sense == -1 {
        MinLoopPrefix(b, moves, depth, save, alpha, beta, INFTY, found);
        MinLoopScores(b, moves, depth, save, alpha, beta, INFTY, found);
        MinLoopValue(b, moves, depth, save, alpha, beta, INFTY, found);
        MinLoopFound(b, moves, depth, save, alpha, beta, INFTY, found);
      }
    }
  }

  /** Where the values of a search come from: each entry of the trace is
      the value of the opposite side's reply search of its move, made on a
      board in b's position (with ExploreValue, the search one level down
      on the board after the move), and the first entry is searched on b
      itself with the search's own window and recorded move. */
  lemma SearchChildren(b: Board, depth: nat, save: bool, sense: int, alpha: int, beta: int, found: Option<Move>)
    requires Search(b, depth, save, sense, alpha, beta, found).Success?
    requires depth > 0 && b.winner.None?
    ensures var n := Search(b, depth, save, sense, alpha, beta, found).value;
            sense == 1 ==>
              && (forall k :: 0 <= k < |n.trace| ==> Explored(n.trace[k], depth, -1) && SamePosition(n.trace[k].board, b))
              && (n.trace != [] ==> n.trace[0].board == b && n.trace[0].alpha == alpha && n.trace[0].beta == beta && n.trace[0].found == found)
    ensures var n := Search(b, depth, save, sense, alpha, beta, found).value;
            sense == -1 ==>
              && (forall k :: 0 <= k < |n.trace| ==> Explored(n.trace[k], depth, 1) && SamePosition(n.trace[k].board, b))
              && (n.trace != [] ==> n.trace[0].board == b && n.trace[0].alpha == alpha && n.trace[0].beta == beta && n.trace[0].found == found)
  {
    var moves := LegalMoves(b, b.turn);
    if sense == 1 {
      assert Search(b, depth, save, sense, alpha, beta, found) == MaxLoop(b, moves, depth, save, alpha, beta, -INFTY, found);
      MaxLoopChildren(b, moves, depth, save, alpha, beta, -INFTY, found);
    } else if sense == -1 {
      assert Search(b, depth, save, sense, alpha, beta, found) == MinLoop(b, moves, depth, save, alpha, beta, INFTY, found);
      MinLoopChildren(b, moves, depth, save, alpha, beta, INFTY, found);
    }
  }

  /** Siblings in one search: the entry after entry i is searched on the
      board that exploring entry i handed back, so a winner left there by
      that reply search stays visible to the later moves, and with the
      recorded move as entry i left it: its own move when save is set and
      its value reached the running maximum (sense 1) or minimum (sense -1)
      of the values before it, otherwise the recorded move it was searched
      with. */
  lemma SearchSiblings(b: Board, depth: nat, save: bool, sense: int, alpha: int, beta: int, found: Option<Move>, i: nat)
    requires Search(b, depth, save, sense, alpha, beta, found).Success?
    requires depth > 0 && b.winner.None?
    requires i + 1 < |Search(b, depth, save, sense, alpha, beta, found).value.trace|
    ensures var t := Search(b, depth, save, sense, alpha, beta, found).value.trace;
            sense == 1 ==> Follows(t[i], t[i + 1], save && t[i].value >= FoldMax(-INFTY, t[..i]))
    ensures var t := Search(b, depth, save, sense, alpha, beta, found).value.trace;
            sense == -1 ==> Follows(t[i], t[i + 1], save && t[i].value <= FoldMin(INFTY, t[..i]))
  {
    var moves := LegalMoves(b, b.turn);
    var t := Search(b, depth, save, sense, alpha, beta, found).value.trace;
    if sense == 1 {
      assert Search(b, depth, save, sense, alpha, beta, found) == MaxLoop(b, moves, depth, save, alpha, beta, -INFTY, found);
      MaxLoopSiblings(b, moves, depth, save, alpha, beta, -INFTY, found);
      MaxThreadedAt(t, save, -INFTY, i);
    } else if sense == -1 {
      assert Search(b, depth, save, sense, alpha, beta, found) == MinLoop(b, moves, depth, save, alpha, beta, INFTY, found);
      MinLoopSiblings(b, moves, depth, save, alpha, beta, INFTY, found);
      MinThreadedAt(t, save, INFTY, i);
    }
  }

  /** A winning move stays visible to its later siblings: when the move of
      entry i wins the game, the entry after it is searched on a board that
      carries that winner. */
  lemma SearchWinLeaks(b: Board, depth: nat, save: bool, sense: int, alpha: int, beta: int, found: Option<Move>, i: nat)
    requires Search(b, depth, save, sense, alpha, beta, found).Success?
    requires depth > 0 && b.winner.None?
    requires i + 1 < |Search(b, depth, save, sense, alpha, beta, found).value.trace|
    ensures var t := Search(b, depth, save, sense, alpha, beta, found).value.trace;
            IsLegal(t[i].board, t[i].move.from, t[i].move.to) && ApplyMove(t[i].board, t[i].move.from, t[i].move.to).Success?
    ensures var t := Search(b, depth, save, sense, alpha, beta, found).value.trace;
            ApplyMove(t[i].board, t[i].move.from, t[i].move.to).value.winner.Some? ==>
              t[i + 1].board.winner == ApplyMove(t[i].board, t[i].move.from, t[i].move.to).value.winner
  {
    var t := Search(b, depth, save, sense, alpha, beta, found).value.trace;
    if sense == 1 || sense == -1 {
      SearchChildren(b, depth, save, sense, alpha, beta, found);
      SearchSiblings(b, depth, save, sense, alpha, beta, found, i);
      var c := t[i];
      assert Explored(c, depth, -sense);
      ExploreValue(c.board, c.move, depth, -sense, c.alpha, c.beta, c.found);
      if ApplyMove(c.board, c.move.from, c.move.to).value.winner.Some? {
        MoveWinStaysVisible(c.board, c.move, depth, -sense, c.alpha, c.beta, c.found);
      }
    }
  }

  /** The window each move of a search is searched with: a maximizing
      search with alpha >= -INFTY keeps beta and raises alpha to the running
      maximum of alpha and the values found before; a minimizing search with
      beta <= INFTY keeps alpha and lowers beta to the running minimum of
      beta and the values found before. */
  lemma SearchWindow(b: Board, depth: nat, save: bool, sense: int, alpha: int, beta: int, found: Option<Move>)
    requires Search(b, depth, save, sense, alpha, beta, found).Success?
    requires depth > 0 && b.winner.None?
    ensures var n := Search(b, depth, save, sense, alpha, beta, found).value;
            sense == 1 && -INFTY <= alpha ==>
              forall k :: 0 <= k < |n.trace| ==> n.trace[k].beta == beta && n.trace[k].alpha == FoldMax(alpha, n.trace[..k])
    ensures var n := Search(b, depth, save, sense, alpha, beta, found).value;
            sense == -1 && beta <= INFTY ==>
              forall k :: 0 <= k < |n.trace| ==> n.trace[k].alpha == alpha && n.trace[k].beta == FoldMin(beta, n.trace[..k])
  {
    var moves := LegalMoves(b, b.turn);
    if sense == 1 && -INFTY <= alpha {
      assert Search(b, depth, save, sense, alpha, beta, found) == MaxLoop(b, moves, depth, save, alpha, beta, -INFTY, found);
      MaxLoopWindow(b, moves, depth, save, alpha, beta, -INFTY, found);
    } else if sense == -1 && beta <= INFTY {
      assert Search(b, depth, save, sense, alpha, beta, found) == MinLoop(b, moves, depth, save, alpha, beta, INFTY, found);
      MinLoopWindow(b, moves, depth, save, alpha, beta, INFTY, found);
    }
  }

  /** Alpha-beta cutoff of one search with a window -INFTY <= alpha < beta
      <= INFTY: a maximizing search passes every searched move while the
      running maximum of alpha and the values stays below beta, and leaves
      moves unsearched only once it reaches beta; a minimizing search
      likewise with the running minimum of beta falling to alpha. */
  lemma SearchCutoff(b: Board, depth: nat, save: bool, sense: int, alpha: int, beta: int, found: Option<Move>)
    requires Search(b, depth, save, sense, alpha, beta, found).Success?
    requires depth > 0 && b.winner.None?
    requires -INFTY <= alpha < beta <= INFTY
    ensures var n := Search(b, depth, save, sense, alpha, beta, found).value;
            sense == 1 ==>
              && (forall k :: 0 < k < |n.trace| ==> FoldMax(alpha, n.trace[..k]) < beta)
              && (|n.trace| < |LegalMoves(b, b.turn)| ==> beta <= FoldMax(alpha, n.trace))
    ensures var n := Search(b, depth, save, sense, alpha, beta, found).value;
            sense == -1 ==>
              && (forall k :: 0 < k < |n.trace| ==> alpha < FoldMin(beta, n.trace[..k]))
              && (|n.trace| < |LegalMoves(b, b.turn)| ==> FoldMin(beta, n.trace) <= alpha)
  {
    var moves := LegalMoves(b, b.turn);
    if sense == 1 {
      MaxLoopCutoff(b, moves, depth, save, alpha, beta, -INFTY, found);
    } else if sense == -1 {
      MinLoopCutoff(b, moves, depth, save, alpha, beta, INFTY, found);
    }
  }

  /** The move `findMove()` returns, when there is one, is a legal move of
      the side to move; and in an undecided position where that side can
      move, there always is one. */
  lemma FindMoveLegal(b: Board)
    requires FindMove(b).Success?
    ensures FindMove(b).value.Some? ==> FindMove(b).value.value in LegalMoves(b, b.turn)
    ensures b.winner.None? && HasMove(b, b.turn) ==> FindMove(b).value.Some?
  {
    var n := Search(b, MaxDepth(b), true, 1, -INFTY, INFTY, None).value;
    SearchResult(b, MaxDepth(b), true, 1, -INFTY, INFTY, None);
    if b.winner.None? {
      var moves := LegalMoves(b, b.turn);
      if LastMatch(n.trace, n.score).Some? {
        var k :| 0 <= k < |n.trace| && n.trace[k].value == n.score && n.trace[k].move == n.found.value;
        assert n.found.value == moves[k];
      }
      if HasMove(b, b.turn) {
        assert n.trace[0].value <= n.score;
        if n.score != -INFTY {
          var k :| 0 <= k < |n.trace| && n.score == n.trace[k].value;
        } else {
          assert n.trace[0].value == n.score;
        }
      }
    }
  }
}
