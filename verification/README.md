# Tablut board and search, modelled in Dafny

This project models the core of a Tablut engine: the 9x9 hnefatafl variant in
which BLACK attackers try to capture the WHITE king and WHITE tries to bring the
king to the edge. Two Java classes make up the core:

- `Board` is the game state machine. It covers the initial layout, move legality,
  applying a move (relocation, flank captures, the hostile throne, king capture,
  and wins by king on the edge, king capture or repeated position), undo through
  history stacks, move generation, and position encoding.
- `AI` is the automated player. It has a three-valued static evaluation and a
  depth-limited minimax search with alpha-beta cutoffs that makes and undoes
  moves on one board.

The model is functional. A `Board` is an immutable datatype holding:

- an 81-cell grid, column-major, so cell `col * 9 + row` is `board[col][row]`;
- the side to move, the move count, the winner and the repetition flag;
- the move limit;
- one history `Entry` per applied move.

An `Entry` carries the information the Java code keeps on four parallel stacks:
the move's squares, the pieces saved next to the destination before captures,
and the position recorded for repetition.

`makeMove` becomes `Play.ApplyMove` and `undo` becomes `Play.Undo`. The search
becomes `AI.Search` together with its two loops, `AI.MaxLoop` and `AI.MinLoop`.
It passes the board through and hands it back. It also returns the move
recorded in `_lastFoundMove` and the list of moves it searched at its own
level, each with the value its reply search produced. That list is what the
value, cutoff and saved-move properties are stated over.

Two Java null dereferences become a `Failure`:

- `checkHostileThrone` with no king on the board (`MissingKing`).
- `captureKing` looking past the board edge (`OffBoardNeighbour`). With one
  king this cannot happen: the neighbours are checked only when the king found
  by `kingPosition` stands on or beside the throne and the captured square holds
  a king. That square is then the king's own, and all its neighbours are on the
  board. The branch can be reached only on a grid holding a second king, which
  no sequence of moves produces.

Modules, in dependency order:

| module | file | contents |
|---|---|---|
| `Wrappers` | wrappers.dfy | `Option`, `Result` |
| `Geometry` | geometry.dfy | squares, directions, rook moves, `between`, the ray tables |
| `Pieces` | pieces.dfy | pieces and sides |
| `Grids` | grids.dfy | the grid, `kingPosition`, `pieceLocations`, `countSide` |
| `Boards` | boards.dfy | board state, history entries, `init`, `setMoveLimit`, `encodedBoard` |
| `Legality` | legality.dfy | `isUnblockedMove`, `isLegal`, `legalMoves`, `hasMove` |
| `Captures` | captures.dfy | `capture`, `captureCheck`, `captureKing`, `checkHostileThrone`, `checkBlack`, `checkThrone`, the capture loop of `makeMove` |
| `Play` | play.dfy | `makeMove`, `checkRepeated`, `undo`, `undoPosition` |
| `MoveLaws` | move_laws.dfy | laws of applying and undoing moves |
| `AI` | ai.dfy | `staticScore`, `maxDepth`, both `findMove`s |

`Square`, `Piece` and `Move` are not part of this model. The model assumes:

- a square is a (column, row) pair in [0, 9);
- direction 0 is north (row + 1), 1 is east (column + 1), 2 is south and 3 is west;
- `rookMove(d, k)` is the square k steps away in direction d, or null off the board;
- `between` is the midpoint of two squares two apart;
- `isEdge` means the square lies on the outer ring;
- `side(KING)` is WHITE, and `side(EMPTY)` is EMPTY;
- `ROOK_MOVES[s][d]` lists every square along the ray from s in direction d, nearest first (`Geometry.RookRay`).

## Model

| member | source | states |
|---|---|---|
| `Boards.Init` | proj2/tablut/Board.java:75-96 | After `init`, every square holds its starting piece: KING on the throne, WHITE on the defender squares, BLACK on the attacker squares, EMPTY elsewhere. BLACK is to move, the move count is 0, there is no winner and the history is empty. |
| `Boards.InitialCounts` | proj2/tablut/Board.java:32-43 | The starting layout has 16 BLACK pieces and 9 WHITE ones: 8 defenders plus the king. |
| `Boards.WrapInt` | proj2/tablut/Board.java:102 | Java `int` arithmetic: the result is the 32-bit value congruent to the exact result modulo 2^32, and equals it when that fits. |
| `Boards.SetMoveLimit` | proj2/tablut/Board.java:100-105 | The limit is stored whether or not the call is rejected. Rejection compares the move count with `2 * n` as Java computes it. For -2^30 <= n < 2^30 the call is rejected exactly when the move count has reached twice the limit. For n >= 2^30 the doubled value wraps negative, so every call is rejected. For n < -2^30 it wraps positive, and the call is rejected exactly when the move count has reached 2n + 2^32. |
| `Grids.KingPositionSpec` | proj2/tablut/Board.java:139-148 | `kingPosition` returns a square holding the KING, and returns none exactly when no square holds one. |
| `Grids.KingPositionUnique` | proj2/tablut/Board.java:139-148 | With one king on the board, `kingPosition` is its square. |
| `Grids.PieceLocations` | proj2/tablut/Board.java:436-447 | A square is listed exactly when its piece belongs to the side; the king counts for WHITE. |
| `Legality.UnblockedIff` | proj2/tablut/Board.java:184-196 | For squares on a common line, the move is unblocked exactly when the origin holds a piece and every square after it, up to and including the destination, is empty. |
| `Legality.UnalignedUnblocked` | proj2/tablut/Board.java:184-196 | For squares on no common line, the walk never runs, so the move counts as unblocked whenever the origin holds a piece. |
| `Legality.IllegalCases` | proj2/tablut/Board.java:204-210 | A move is illegal when it goes nowhere, when the origin is not of the side to move, or when a piece other than the king targets the throne. |
| `Legality.LegalIff` | proj2/tablut/Board.java:199-212 | An aligned move is legal exactly when the origin belongs to the side to move, only the king enters the throne, and the path up to and including the destination is empty. |
| `Legality.LegalTargetEmpty` | proj2/tablut/Board.java:184-212 | A legal aligned move starts from a piece and lands on an empty square. |
| `Legality.LegalMoves` | proj2/tablut/Board.java:385-397 | The listed moves are exactly the legal aligned moves, and only when the side asked about is the side to move. |
| `Legality.LegalMovesOtherSide` | proj2/tablut/Board.java:385-397 | Against its documentation, `legalMoves` is empty for the side that is not to move. |
| `Legality.HasMoveIff` | proj2/tablut/Board.java:400-402 | A side has a move exactly when it is to move and some legal aligned move exists. |
| `Captures.Surrounded` | proj2/tablut/Board.java:301-308 | The king-surround loop succeeds exactly when every remaining neighbour of the king is BLACK or the throne. |
| `Captures.Capture` | proj2/tablut/Board.java:268-344 | One capture attempt changes only the middle square, and only to EMPTY. It removes the piece exactly when that piece is an enemy of the mover and the far square is a friend of the mover or a hostile throne. The throne is hostile when the king is off it or at least three of its neighbours are BLACK. A king on or beside the throne must also be hemmed in by BLACK pieces or the throne on all four sides. Taking the king makes BLACK the winner. |
| `Captures.CaptureFaults` | proj2/tablut/Board.java:296-322 | A capture attempt fails in only two cases. The first is a throne flank with no king on the board. The second is a captured square holding a KING while the king `kingPosition` finds first stands on or beside the throne. That square's neighbour check can run off the board only when it holds a second king away from the throne. |
| `Captures.CaptureStep` | proj2/tablut/Board.java:235-244 | One direction of the loop saves the piece between `to` and the flank before trying a capture. A change to that square means the piece there was an enemy of the piece on `to`, and the flank held a piece of the mover before the move or is the throne. |
| `Captures.CaptureStepAttempts` | proj2/tablut/Board.java:237-242 | When the flank square exists and held a mover's piece before the move or is the throne, the capture is tried: the neighbour is removed exactly when the capture rule holds on the grid as it stands. Otherwise the step changes neither grid nor winner. Only a tried capture can fail. |
| `Captures.CaptureLoopSaves` | proj2/tablut/Board.java:235-244 | Each saved entry holds the piece that stood on a neighbour of `to` before the loop. |
| `Captures.CaptureLoopOrder` | proj2/tablut/Board.java:235-240 | The saved entries run in strictly increasing direction, one for a direction only when its flank square exists. Every direction whose flank square exists has an entry on its neighbour. |
| `Captures.CaptureLoopAttempts` | proj2/tablut/Board.java:235-244 | For each direction whose flank square exists, the neighbour still holds its original piece when the loop reaches that direction. If the flank was a mover's piece or the throne, the loop removes the neighbour exactly when the capture rule holds at that point. Otherwise the loop leaves it alone. |
| `Captures.CaptureLoopClears` | proj2/tablut/Board.java:235-244 | Every square the loop changes becomes EMPTY, and its piece was saved beforehand. |
| `Captures.CaptureLoopWinner` | proj2/tablut/Board.java:235-244 | BLACK becomes the winner in the loop exactly when a king is taken; otherwise the winner is unchanged. |
| `Captures.CaptureLoopTakesEnemies` | proj2/tablut/Board.java:235-244 | The loop takes only enemies of the piece on `to` that stand next to it, and only where the square beyond held a piece of the mover before the move or is the throne. |
| `Play.ApplyMove` | proj2/tablut/Board.java:221-256 | A successful move passes the turn, adds one to the move count, keeps the limit, and appends one history entry. That entry records the position before the move. |
| `Play.RestoreAgrees` | proj2/tablut/Board.java:361-368 | Putting back saved pieces that were read from a grid restores that grid's contents on every saved square, in any order, and touches nothing else. |
| `Play.Undo` | proj2/tablut/Board.java:347-372 | On the initial board `undo` does nothing. Otherwise it takes one off the move count, passes the turn back, drops the last history entry, clears the repetition flag and keeps the winner. |
| `MoveLaws.MoveLocality` | proj2/tablut/Board.java:231-246 | After a move, `to` holds the moved piece and `from` is empty. Every square other than those two and the neighbours of `to` is unchanged, and a changed neighbour is empty. |
| `MoveLaws.MoveTakesOnlyEnemies` | proj2/tablut/Board.java:232-244 | A neighbour is removed only if it held a piece of the side not moving, and the square beyond it held a mover's piece before the move or is the throne. |
| `MoveLaws.MoveAttemptsCaptures` | proj2/tablut/Board.java:232-244 | Every flanked neighbour is tried. A move removes the neighbour in a direction exactly when the square beyond held a mover's piece before the move (or is the throne) and the capture rule holds on the grid as the loop reaches that direction. |
| `MoveLaws.MoverKeepsPieces` | proj2/tablut/Board.java:232-244 | No piece of the mover other than the moved one changes, so WHITE never takes its own king. |
| `MoveLaws.MoveRepetition` | proj2/tablut/Board.java:125-130 | The new position counts as repeated exactly when it equals a position recorded before the move. The repetition flag becomes the old flag or that. |
| `MoveLaws.MoveWinner` | proj2/tablut/Board.java:221-256 | The winner after a move is decided in this order, later decisions overriding earlier ones: a side with no legal move loses, taking the king wins for BLACK, the king on the edge wins for WHITE, and a repeated position wins for the side now to move. |
| `MoveLaws.WinnerKept` | proj2/tablut/Board.java:221-256 | A move never resets a decided winner to none. |
| `MoveLaws.StalemateUnreachable` | proj2/tablut/Board.java:223-229 | A side making a legal aligned move always has a move, so the no-legal-move branch of `makeMove` never fires for such a move. |
| `MoveLaws.UndoRoundTrip` | proj2/tablut/Board.java:347-372 | Undoing a legal aligned move gives back the board exactly: grid, turn, move count, history and limit. The exceptions are that the winner the move declared stays and the repetition flag is cleared. |
| `AI.StaticScore` | proj2/tablut/AI.java:120-136 | Every branch, in the Java order. A decided game scores as a win for the winner. An undecided board with no king scores as a BLACK win. A king on the edge scores as a WHITE win. Otherwise BLACK outnumbering WHITE scores as a BLACK win, and INFTY is returned exactly when none of these apply. |
| `AI.Search` | proj2/tablut/AI.java:66-112 | After a search the board has its original grid, turn, move count, history and limit. The value is one of the four score values, and the recorded move changes only when `saveMove` is set. |
| `AI.Explore` | proj2/tablut/AI.java:76-79 | Making a move, searching the reply and undoing the move hands back the board in its original position. |
| `AI.ExploreValue` | proj2/tablut/AI.java:76-78 | The value of exploring a move is the value the reply search, one level shallower, without saving, with the same window, returns on the board after the move. |
| `AI.ExploreWinner` | proj2/tablut/AI.java:76-79 | The board exploring a move hands back carries the winner the reply search left on the board after the move: `undo` takes the move back but not the winner. |
| `AI.MoveWinStaysVisible` | proj2/tablut/AI.java:76-79 | When the move itself wins, the board handed back carries that winner. |
| `AI.ExploreDecided` | proj2/tablut/AI.java:68-79 | Exploring a move on a board whose game is already decided scores it as the static score of the board after the move, and the winner stays on the board handed back. |
| `AI.MaxLoopChildren` | proj2/tablut/AI.java:75-79 | Each searched entry's value is what exploring its move with the minimizing reply search gave, on a board in the loop's position. The first is explored on the loop's own board and window. |
| `AI.MinLoopChildren` | proj2/tablut/AI.java:94-98 | Each searched entry's value is what exploring its move with the maximizing reply search gave, on a board in the loop's position. The first is explored on the loop's own board and window. |
| `AI.MaxLoopSiblings` | proj2/tablut/AI.java:75-84 | Each later entry is searched on the board that exploring the entry before it handed back, so a winner `undo` left in place stays visible (`AI.ExploreWinner`, `AI.MoveWinStaysVisible`). Its recorded move is the previous entry's move when `saveMove` is set and that value reached the running maximum; otherwise it is the recorded move the previous entry was searched with. |
| `AI.MinLoopSiblings` | proj2/tablut/AI.java:94-103 | The same for the minimizing loop, with the running minimum. |
| `AI.MaxLoopWindow` | proj2/tablut/AI.java:77-86 | With best <= alpha, each move is searched with the loop's beta, and with alpha raised to the running maximum of alpha and the values found before it. |
| `AI.MinLoopWindow` | proj2/tablut/AI.java:96-105 | With beta <= best, each move is searched with the loop's alpha, and with beta lowered to the running minimum of beta and the values found before it. |
| `AI.MaxLoopPrefix` | proj2/tablut/AI.java:75-90 | The maximizing loop searches the legal moves in order, stopping somewhere, and searches at least one when there is one. |
| `AI.MaxLoopScores` | proj2/tablut/AI.java:75-79 | Every value a reply search returns to the maximizing loop is one of the four score values. |
| `AI.MaxLoopValue` | proj2/tablut/AI.java:72-90 | The maximizing loop returns the largest of -INFTY and the values found. |
| `AI.MaxLoopFound` | proj2/tablut/AI.java:80-84 | With `saveMove`, the recorded move is the last searched move whose value equals the result, so ties go to the later move. |
| `AI.MaxLoopCutoff` | proj2/tablut/AI.java:85-88 | The maximizing loop goes on while the running maximum of alpha and the values found stays below beta, and stops early only once it reaches beta. |
| `AI.MinLoopPrefix` | proj2/tablut/AI.java:94-109 | The minimizing loop searches the legal moves in order, stopping somewhere, and searches at least one when there is one. |
| `AI.MinLoopScores` | proj2/tablut/AI.java:94-98 | Every value a reply search returns to the minimizing loop is one of the four score values. |
| `AI.MinLoopValue` | proj2/tablut/AI.java:91-109 | The minimizing loop returns the smallest of INFTY and the values found. |
| `AI.MinLoopFound` | proj2/tablut/AI.java:99-103 | With `saveMove`, the recorded move is the last searched move whose value equals the result. |
| `AI.MinLoopCutoff` | proj2/tablut/AI.java:104-107 | The minimizing loop goes on while the running minimum of beta and the values found stays above alpha, and stops early only once it falls to alpha. |
| `AI.SearchResult` | proj2/tablut/AI.java:66-112 | At depth 0, with a winner, or with a sense other than 1 or -1, a search returns the static score and leaves the board alone. Otherwise it returns the maximum (sense 1) or minimum (sense -1) of the values of a prefix of the legal moves, starting from -INFTY or INFTY. |
| `AI.SearchChildren` | proj2/tablut/AI.java:72-98 | Each value in a search's list is that of the opposite side's reply search of its move, which together with `AI.ExploreValue` is the search one level down on the board after the move. The first move is searched on the search's own board and window. |
| `AI.SearchSiblings` | proj2/tablut/AI.java:75-103 | The move after entry i is searched on the board that exploring entry i handed back, including any winner it left (`AI.ExploreWinner`). It is searched with entry i's move recorded when `saveMove` is set and entry i reached the running maximum (sense 1) or minimum (sense -1); otherwise with the recorded move entry i saw. |
| `AI.SearchWinLeaks` | proj2/tablut/AI.java:75-79 | When the move of entry i wins the game, the move after it is searched on a board that carries that winner; `AI.ExploreDecided` then scores every later move statically. |
| `AI.SearchWindow` | proj2/tablut/AI.java:77-105 | Within -INFTY <= alpha, a maximizing search keeps beta and searches each move with alpha raised to the running maximum of the values before it. Within beta <= INFTY, a minimizing search keeps alpha and lowers beta to the running minimum. |
| `AI.SearchCutoff` | proj2/tablut/AI.java:80-108 | Within a window where -INFTY <= alpha < beta <= INFTY, a search leaves moves unsearched only once the running bound crosses the other end of the window. |
| `AI.FindMoveLegal` | proj2/tablut/AI.java:49-54 | The move `findMove()` returns, if any, is a legal move of the side to move. In an undecided position where that side can move, it returns one. |
| `AI.MaxDepth` | proj2/tablut/AI.java:116-118 | The root search depth is positive. |

## Left out

- Text rendering (`toString`) and the character-based `get`/`put`: formatting and parsing over `Piece.toString`, which is not part of this model.
- `encodedBoard` is modelled as the pair of side to move and grid, `Boards.Position`. This assumes the one-character names of the pieces and sides are distinct, so that equal encodings mean equal positions.
- `Board.copy` shares the grid array and the undo stacks with the board it copies. The AI's private copy therefore mutates the game's own grid during the search and restores it through `undo`. The model uses values: the search takes a board and hands one back.
- `clearUndo` empties the undo stacks. It breaks the undo invariant on purpose and is not modelled.
- The debug statement in `makeMove(Move)` does nothing.
- Player and controller plumbing in `AI` (constructors, `create`, `myMove`, `isManual`) is input/output and orchestration.
- Java's `HashSet` iteration order in `pieceLocations`, and so in `legalMoves`, is unspecified. The model scans columns, then rows. The order matters only to the search, which is stated for whatever order the moves come in.
- The Java stacks are replaced by one history entry per move. `undoPosition` pops one saved piece for each direction in which a square two steps from `to` exists, which is exactly the number `makeMove` pushed. The model restores the entry's saved list instead.
- Integer overflow: `2 * lim` in `setMoveLimit` wraps as Java `int` arithmetic does (`Boards.WrapInt`). The score constants are only compared and negated, never added. The move count and the limit are not wrapped: the count grows by one per move and stays far below 2^31.
- `WILL_WIN_VALUE` is declared in `AI` but never used.
- `MoveLaws.MoveTakesOnlyEnemies` does not repeat the throne-hostility and king-surround conditions at move level. They are stated per capture attempt by `Captures.Capture`, with the grid as it stands at that point of the move.
- `MoveLaws.UndoRoundTrip` requires the move to be along a line. For squares on no common line, `isLegal` can accept a move onto an occupied square, and `undo` then leaves that square empty.
- `AI.SearchResult` relates the search to its own list of searched moves, `AI.SearchChildren` and `AI.ExploreValue` tie each value to the reply search on the board the move was made on, and `AI.SearchSiblings` and `AI.SearchWindow` give the board, recorded move and window each later move is searched with. The model does not relate the search to textbook minimax over the game tree. `undo` keeps the winner, so a win found below one move stays on the board while the moves after it are searched, and those are then scored statically (`AI.SearchWinLeaks`, `AI.ExploreDecided`).
- `AI.SearchCutoff` and `AI.MaxLoopCutoff`/`AI.MinLoopCutoff` assume a window alpha < beta around the starting best value. The root call and every reply search inside a window meet that assumption.

The code is followed where the documentation says otherwise:

- `legalMoves(side)` is documented to ignore whose turn it is. It does not ignore it, because `isLegal` checks the side to move (`Legality.LegalMovesOtherSide`).
- `makeMove` is documented as assuming a legal move, yet it declares a win for the opponent when the side to move has no legal move. For any legal move along a line that branch is unreachable (`MoveLaws.StalemateUnreachable`).
