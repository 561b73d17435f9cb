# Lines of Action: the board and the machine player, in Dafny

This project models the core of a Java implementation of Lines of Action, an
8x8 board game. Two sides, black and white, move in turn. A piece moves in a
straight line exactly as many squares as there are pieces on that whole line,
and may not jump an opposing piece. A side wins when all its pieces form one
region of touching squares.

Two Java classes are modelled.

- `loa/Board.java` keeps the board state. It holds a 64-cell array, the side
  to move, the list of moves made, a move limit, a cached winner and cached
  region sizes. Its operations check legality, list the legal moves, make and
  retract moves, flood-fill regions and decide the winner.
- `loa/MachinePlayer.java` is the automated player. It runs a fail-soft
  alpha-beta search over copies of the board, scores leaves with a heuristic
  built on region sizes, and records the move it found in `_foundMove`.

The model has two layers.

- **Functions on values** (modules `Pieces`, `Squares`, `Moves`, `Regions`,
  `Rules`, `Search`). `BoardState` holds every field of a `Board` as one
  value, and each Board operation is a function on it. The game rules are
  proved once, about these functions: legality, the legal-move list and its
  order, regions, the winner's precedence, and make followed by retract. The
  unpruned minimax value of a position is also defined here, over the same
  tree of boards the search visits.
- **Imperative classes** (modules `Boards` and `Players`). `Boards.Board` is
  a class with an `array<Piece>` of 64 cells and the other fields as
  mutable fields. Each method is proved to leave `State()` exactly as the
  corresponding function says. This covers loops such as the
  blocked-path walk, the two ray counts, the move-table scan and the
  explicit-stack flood fill of `numContig`.
  `Players.MachinePlayer` is a class with the `foundMove` field. `FindMove`
  is the recursive search over board copies, with the same two loops,
  breaks and window updates as `findMove`. It is proved against `Minimax`:
  - clamped to its window, its value equals the minimax value clamped the
    same way;
  - in the full window `(-INFTY, INFTY)` it is the minimax value itself;
  - the move recorded at the root is `Choice`, the first move of strictly
    greatest value in legal-move order.

Square, Move and Piece are not part of this model's sources. They are
modelled minimally, from how Board uses them:
- a square is a column and a row in `[0, 8)`, stored at index
  `row * 8 + col`;
- a direction is a unit step;
- distance is the Chebyshev distance;
- entry `[i][j][0]` of the move table is the non-capturing move from square
  `i` to square `j` when the two lie on a line, and null otherwise;
- `EMP.opposite()` is `EMP`.

The comment at `loa/Board.java:21` calls `DEFAULT_MOVE_LIMIT` a number of
moves per side. `initialize` stores it unchanged, whereas `setMoveLimit`
stores twice its per-side argument. So by default a game ties after 60 moves
in all. The model follows the code.

## Model

| member | source | states |
|---|---|---|
| Pieces.Opposite | loa/Board.java:140 | the opposite of WP is BP and of BP is WP; EMP stays EMP |
| Squares.Index | loa/Board.java:433-434 | every square has a cell index in `[0, 64)` |
| Squares.SquareAt | loa/Board.java:389 | the square stored at cell k has index k |
| Squares.IndexInjective | loa/Board.java:433-434 | two squares with the same cell index are the same square |
| Squares.MoveDest | loa/Board.java:310 | `moveDest` answers a square exactly when the square k steps along the direction is on the board, and then it is that square |
| Squares.Distance | loa/Board.java:204 | the distance between two squares is at most 7, and 0 exactly when they are equal |
| Squares.Direction | loa/Board.java:308 | a direction exists exactly when the squares differ and share a row, column or diagonal; it is then a unit compass step |
| Squares.DirectionReaches | loa/Board.java:307-310 | `distance(to)` steps along `direction(to)` lead from `from` to `to` |
| Squares.DirectionReverse | loa/Board.java:327-328 | the direction back from `to` to `from` is the reverse one, at the same distance |
| Squares.ValidMoveDistance | loa/Board.java:198 | a geometrically valid move has length 1 to 7 |
| Squares.Adjacent | loa/Board.java:369 | the neighbour list of a square holds exactly the squares that touch it by a side or a corner |
| Moves.CaptureMove | loa/Board.java:140-142 | the capture version of a move keeps its two squares and sets the capture flag |
| Moves.MoveTable | loa/Board.java:224-229 | entry `[i][j][0]` is a move exactly when squares i and j lie on a line, and it is then the non-capturing move from i to j |
| Rules.EntryIfExact | loa/Board.java:228-233 | one table entry contributes at most one move, and exactly the non-capturing legal move from i to j if there is one |
| Rules.RowIfExact | loa/Board.java:227-234 | the inner scan collects exactly the legal non-capturing moves from square i to destinations below j, in increasing destination order |
| Rules.RowsIfExact | loa/Board.java:226-235 | the outer scan collects exactly the legal non-capturing moves from origins below i |
| Rules.RowsIfInOrder | loa/Board.java:226-235 | the moves the outer scan collects are in increasing (origin, destination) order |
| Rules.LegalMovesExact | loa/Board.java:222-237 | a move is in `legalMoves()` exactly when it is non-capturing and `isLegal(move)` holds |
| Rules.LegalMovesInOrder | loa/Board.java:222-237 | `legalMoves()` lists its moves in the enumeration order: by origin index, then by destination index |
| Rules.OffBoardStays | loa/Board.java:332-347 | once a walk along a direction leaves the board it stays off it, and no walk stays on for eight steps |
| Rules.RayStable | loa/Board.java:340-347 | steps past the first off-board square add nothing to a ray's piece count |
| Rules.LegalIsMovable | loa/Board.java:187-209 | a legal move leaves a piece of the mover for a different square not held by the mover, and a capture flag only onto an opposing piece |
| Rules.WithRegions | loa/Board.java:380-407 | `computeRegions()` changes nothing when the cache is marked computed; otherwise it fills both lists with the true region sizes and changes no other field |
| Rules.WinnerOf | loa/Board.java:253-269 | `winner()` returns the cached winner untouched when known; otherwise it keeps cells, turn, moves and limit, and leaves the region cache computed |
| Rules.WinnerRule | loa/Board.java:253-269 | with a fresh cache and no cached winner, `winner()` returns black if black's pieces are contiguous, else white if white's are, else a tie (EMP) once the move limit is reached, else null; asking again returns the same and changes nothing; no winner leaves none cached |
| Rules.MovedCells | loa/Board.java:144-145 | after the move the destination holds the origin's piece, the origin is empty, and every other cell is unchanged |
| Rules.Recorded | loa/Board.java:140-146 | the move is appended, flagged as a capture exactly when it lands on an opposing piece; the piece moves and the region cache is marked stale |
| Rules.Settled | loa/Board.java:148-154 | the winner becomes the mover if the mover's cached region list has exactly one entry, else the opponent if theirs has, else stays as it was; on a current cache this means one region (see Rules.PlayedWinner) |
| Rules.Played | loa/Board.java:136-158 | `makeMove`: the destination holds the mover's piece, the origin is empty, all other cells unchanged, one more move recorded (a capture iff it took a piece), the turn flips, the limit is kept, the region cache is current |
| Rules.PlayedWinner | loa/Board.java:148-154 | after `makeMove` the cached winner is the mover if its pieces are contiguous, else the opponent if theirs are, else unchanged |
| Rules.PlayedCounts | loa/Board.java:143-145 | a move keeps the mover's piece count and removes at most one opposing piece, exactly one on a capture |
| Rules.MovedCounts | loa/Board.java:144-145 | moving a piece onto a square it does not hold keeps its colour's count and lowers the other colour's by at most one |
| Rules.Retracted | loa/Board.java:161-178 | corrected `retract()`: the last move is dropped, its cells are undone (the captured piece back, or the destination emptied), the turn flips back, the winner is forgotten and the region cache is current |
| Rules.Unrecorded | loa/Board.java:165-169 | the last move is popped and its cells undone, with the region cache marked stale |
| Rules.UndoMoved | loa/Board.java:166-169 | undoing a move whose capture flag is set exactly when it took a piece restores every cell |
| Rules.MakeRetract | loa/Board.java:161-178 | `makeMove(m)` then (corrected) `retract()` restores the cells, the side to move, the move history and the limit; a board with current caches and no winner comes back exactly |
| Rules.RetractedAsWritten | loa/Board.java:163-178 | `retract()` as written: a non-capturing move's piece is left on its destination too, and a cache marked computed is kept as it was |
| Rules.RetractAsWrittenDuplicates | loa/Board.java:166-169 | after any non-capturing move, `retract()` as written leaves the mover's piece on both squares, so the cells differ from before |
| Rules.RetractAsWrittenStale | loa/Board.java:170 | after a capture, `retract()` as written restores the cells but keeps a region cache, still marked computed, that no longer matches them |
| Rules.Flatten | loa/Board.java:57-61 | cell `row * 8 + col` holds `contents[row][col]` |
| Rules.Initialized | loa/Board.java:53-68 | a board initialised from an 8x8 grid is well formed and its cleared region cache is consistent |
| Rules.InitialCell | loa/Board.java:422-431 | every cell of the starting position holds the corresponding entry of `INITIAL_PIECES` |
| Rules.FirstMoveLegal | loa/Board.java:187-209 | in the starting position, black's move b1-b3 is legal |
| Rules.FirstMoveRetractAsWritten | loa/Board.java:166-169 | in the starting position, b1-b3 followed by `retract()` as written leaves a black piece on b3, which was empty |
| Regions.Component | loa/Board.java:352-377 | the region of a p square contains it, holds only p squares and is closed under touching p neighbours |
| Regions.ComponentLeast | loa/Board.java:352-377 | the region is the least such set: it lies inside every closed set containing the square |
| Regions.ComponentDisjoint | loa/Board.java:352-377 | a region does not meet a closed set that does not contain its square |
| Regions.SameComponent | loa/Board.java:352-377 | every square of a region has that same region |
| Regions.Discover | loa/Board.java:389-394 | the squares covered by the first k scan positions' regions are p squares and closed under touching p neighbours |
| Regions.DiscoverFacts | loa/Board.java:389-402 | the scan covers every p square below k; every recorded size is at least 1, and the sizes add up to the number of covered squares |
| Regions.SortedPair | loa/Board.java:404-405 | a sorted list is non-increasing between any two positions |
| Regions.Insert | loa/Board.java:404-405 | inserting into a sorted list gives a sorted list one longer |
| Regions.InsertPerm | loa/Board.java:404-405 | insertion adds exactly the one element |
| Regions.SortDesc | loa/Board.java:404-405 | the sort gives a sorted (largest first) list of the same length |
| Regions.SortPerm | loa/Board.java:404-405 | the sorted list is a permutation of its input |
| Regions.SortSum | loa/Board.java:404-405 | sorting keeps the sum |
| Regions.RegionSizes | loa/Board.java:380-407 | a colour's region sizes are sorted largest first, each between 1 and the piece count, sum to the piece count, and are non-empty exactly when the colour has a piece |
| Regions.OnePieceOneRegion | loa/Board.java:246-248 | a single piece is one region |
| Regions.ContiguousIff | loa/Board.java:246-248 | there is exactly one region exactly when the colour has pieces and all of them are joined through touching squares of that colour |
| Boards.Wrap32 | loa/Board.java:133 | Java's 32-bit int result: always in range, and the value itself when that is in range |
| Boards.PushAll | loa/Board.java:369-371 | pushing a neighbour list onto the stack appends it in order |
| Boards.Board.FromContents | loa/Board.java:36-38 | `Board(contents, side)` is the board initialised from contents with side to move |
| Boards.Board.constructor | loa/Board.java:41-43 | `Board()` is the standard starting position with black to move |
| Boards.Board.Copy | loa/Board.java:47-50 | `Board(board)` has every field equal to board's, in a fresh cell array |
| Boards.Board.Initialize | loa/Board.java:53-68 | the cells are the grid row by row, the limit is `DEFAULT_MOVE_LIMIT`, moves and caches are cleared |
| Boards.Board.Clear | loa/Board.java:71-73 | the board is set to the starting position |
| Boards.Board.CopyFrom | loa/Board.java:76-104 | every field becomes the source board's (unchanged when the board is itself) |
| Boards.Board.Get | loa/Board.java:107-109 | answers the piece on the square |
| Boards.Board.Set | loa/Board.java:113-119 | writes one cell and, when given, the side to move; no other field changes, so the region cache stays marked as it was |
| Boards.Board.SetMoveLimit | loa/Board.java:129-134 | fails, changing nothing, exactly when the 32-bit `2 * limit` is not above `movesMade()`; otherwise the limit becomes that value |
| Boards.Board.Turn | loa/Board.java:181-183 | answers the side to move, never EMP |
| Boards.Board.MovesMadeCount | loa/Board.java:274-276 | answers the number of recorded moves |
| Boards.Board.OppositeBlocked | loa/Board.java:306-317 | true exactly when some square strictly between from and to holds an opposing piece |
| Boards.Board.CountRay | loa/Board.java:332-339 | counts the occupied squares from the square to the board's edge along one direction |
| Boards.Board.NumOfPiecesAlongLine | loa/Board.java:326-350 | the number of pieces on the whole line through from, both ways to the edges, from included |
| Boards.Board.IsLegal | loa/Board.java:187-209 | true exactly when both squares exist, the origin holds the mover's piece, the destination does not, the squares are on a line, no opposing piece lies strictly between, and the line's piece count equals the distance |
| Boards.Board.IsLegalMove | loa/Board.java:213-220 | a capture-flagged move must land on an opposing piece; otherwise the answer of `isLegal(from, to)` |
| Boards.Board.TableEntryMoves | loa/Board.java:228-233 | the moves entry `[i][j][0]` contributes to the legal-move list |
| Boards.Board.LegalMoves | loa/Board.java:222-237 | the legal-move list, which LegalMovesExact and LegalMovesInOrder characterise |
| Boards.Board.NumContig | loa/Board.java:352-377 | for an unvisited p square, returns the size of its whole region, and among the p squares exactly that region is marked in addition; otherwise 0 with no further p square marked (non-p neighbours that are popped get marked too, as in the source) |
| Boards.Board.ComputeRegions | loa/Board.java:380-407 | the board becomes WithRegions of itself: true region sizes unless the cache was marked computed |
| Boards.Board.RegionScan | loa/Board.java:388-402 | one colour's scan over the squares in index order, recording each new region's size |
| Boards.Board.GetRegionSizes | loa/Board.java:409-418 | computes the regions, then answers white's list for WP and black's otherwise |
| Boards.Board.PiecesContiguous | loa/Board.java:245-248 | true exactly when the cached list has one region, which on a consistent cache means the side's pieces are all joined |
| Boards.Board.Winner | loa/Board.java:251-269 | answer and new state are WinnerOf the old state |
| Boards.Board.GameOver | loa/Board.java:239-243 | true exactly when `winner()` is not null |
| Boards.Board.Decide | loa/Board.java:149-150 | records side as the known winner |
| Boards.Board.PassTurn | loa/Board.java:156 | hands the move to the other side |
| Boards.Board.MakeMove | loa/Board.java:136-158 | the new state is Played of the old: see Rules.Played |
| Boards.Board.Retract | loa/Board.java:161-178 | the new state is the corrected Retracted of the old (see Findings) |
| Search.ChooseDepth | loa/MachinePlayer.java:118-121 | the search depth is positive and below the depth bound |
| Search.VerdictIsWinner | loa/MachinePlayer.java:76 | `winner()` answers the verdict of the rules, keeps it, and when there is none only computes the region cache |
| Search.Child | loa/MachinePlayer.java:84-86 | the copy after a legal move can be searched again: the piece has moved and the turn has flipped |
| Search.ScoreBounds | loa/MachinePlayer.java:138-144 | with region sizes from 1 to 64 the undecided score lies within 1640 of zero, far from any winning value |
| Search.Heuristic | loa/MachinePlayer.java:130-147 | `WINNING_VALUE + depth` when p has won, `-WINNING_VALUE - depth` when the other side has, otherwise within those bounds |
| Search.HeuristicOfVerdict | loa/MachinePlayer.java:76-78 | boards with the same cells and verdict score the same |
| Search.ListExtremes | loa/MachinePlayer.java:90-91 | the running maximum bounds every value from above and the running minimum from below, and both are reached |
| Search.ListBounds | loa/MachinePlayer.java:90-91 | values within bounds have maximum and minimum within them |
| Search.ListPrefix | loa/MachinePlayer.java:93-95 | a loop that stops early has seen a maximum no larger (a minimum no smaller) than the whole list's |
| Search.KeptIsFirstMax | loa/MachinePlayer.java:88-91 | the kept move is the first one whose value is the maximum: every move before it has a strictly smaller value |
| Search.Minimax | loa/MachinePlayer.java:73-115 | the unpruned value of a position lies within `WINNING_VALUE + depth` of zero, so strictly inside `(-INFTY, INFTY)` |
| Search.Values | loa/MachinePlayer.java:84-87 | one value per legal move, each strictly within the depth's winning bounds |
| Search.ChildValue | loa/MachinePlayer.java:84-87 | a child's value lies strictly within the depth's winning bounds |
| Search.ChoiceWhen | loa/MachinePlayer.java:50-58 | the search reports a move exactly when the game is undecided and a legal move exists |
| Search.ChoiceIsBest | loa/MachinePlayer.java:81-98 | the reported move is entry k of the legal moves, whose child value is the position's minimax value, and every earlier move's is strictly smaller |
| Search.MinimaxExpanded | loa/MachinePlayer.java:76-113 | an expanded position's value is the maximum of its children's values when p is on move and the minimum otherwise |
| Search.ExpandedValues | loa/MachinePlayer.java:76-113 | the child values of an expanded position give its minimax value and its reported move |
| Search.MaxWindowStep | loa/MachinePlayer.java:87-93 | a child searched in the window raised to the best value so far keeps the running maximum right within the original window |
| Search.MinWindowStep | loa/MachinePlayer.java:103-107 | the same for the minimising loop, with the window's top lowered |
| Search.MaxStep | loa/MachinePlayer.java:84-93 | one max iteration keeps the running maximum right within the window and, in the full window, the kept move right |
| Search.FullWindowExact | loa/MachinePlayer.java:56 | values strictly inside the full window that agree there are equal |
| Search.ExactMaxStep | loa/MachinePlayer.java:88-91 | in the full window a fail-soft child value decides a strict improvement as its true value would |
| Players.MachinePlayer.constructor | loa/MachinePlayer.java:27-29 | a player for the given side, with no move found yet |
| Players.MachinePlayer.SearchForMove | loa/MachinePlayer.java:52-58 | returns Choice for the game's position at `chooseDepth()`, and leaves the game's board unchanged |
| Players.MachinePlayer.FindMove | loa/MachinePlayer.java:73-115 | clamped to the window, the value is the minimax value clamped; in the full window it is the minimax value; at a leaf (depth 0, a decided game or no legal move) the value is exactly the heuristic score in any window and `_foundMove` is untouched; at a full-window maximising node `_foundMove` is Choice |
| Players.MachinePlayer.MaxNode | loa/MachinePlayer.java:81-98 | the maximising loop's value agrees within the window with the children's maximum; in the full window the move returned is the first of strictly greatest value |
| Players.MachinePlayer.MaxChild | loa/MachinePlayer.java:84-95 | one pass of the maximising loop: the best value never falls and stays right within the window, and in the full window the kept move does too |
| Players.MachinePlayer.MinNode | loa/MachinePlayer.java:99-113 | the minimising loop's value agrees within the window with the children's minimum |
| Players.MachinePlayer.SearchChild | loa/MachinePlayer.java:84-87 | a child searched on a copy, one level shallower, agrees within its window with that child's minimax value |
| Players.MachinePlayer.CalcHeuristic | loa/MachinePlayer.java:130-147 | equals Heuristic of the board it was given; the board is left with its regions computed and `winner()` asked |

## Left out

- `toString`, `equals`, `hashCode` and the `ROW_COL` pattern of Board: display, library hashing and parsing helpers, outside the rules.
- `getMove`, `create`, `isManual`, the no-argument `MachinePlayer()` and the `Game`/`Player` classes, `reportMove` included: orchestration whose sources are not available. The player takes its side as a parameter, and `SearchForMove` takes the board `getBoard()` would return.
- Square, Move and Piece are not part of this model; their behaviour is taken from how Board uses them (see above).
- Board's `assert` statements become preconditions. `makeMove` requires a legal move and `retract` requires at least one move made.
- `legalMoves()` never returns null, so the model only tests whether the list is empty.
- Players.MachinePlayer.FindMove: requires a search depth below 20 (`DEPTH_BOUND`). The Java code calls it only with depth 4 or less. The bound keeps `WINNING_VALUE + depth` below `INFTY`, so no int is ever wrapped and the search is modelled on unbounded integers.
- Players.MachinePlayer.FindMove: requires a Searchable board: each colour has a piece, and a region cache marked computed is current. `calcHeuristic` divides by the number of regions of each colour. Two operations can leave a cache marked computed that no longer matches the cells: `set` (`loa/Board.java:113-125`), which changes a cell but keeps the flag, and the retract defect below.
- Players.MachinePlayer.SearchForMove: has the same Searchable requirement, for the same reasons.
- Players.MachinePlayer.FindMove: states `_foundMove` only at leaves and at maximising nodes searched in the full window. At maximising nodes inside a narrowed window the Java code records a move too, and the model sets the field there as well but does not state which move.
- Players.MachinePlayer.FindMove: does not state the searched board's fields afterwards. The search only ever passes it fresh copies.
- Players.MachinePlayer.MaxNode: states the returned move only in the full window.
- Boards.Board.CopyFrom: requires the two boards not to share their cell array unless they are the same board. Java arrays of distinct Boards are never shared.

## Findings

| source | as written | input that shows it | evidently intended | confidence | as-written member | corrected member |
|---|---|---|---|---|---|---|
| loa/Board.java:166-169 | `retract()` moves the piece back to the origin but writes the destination only for a capture, so after a non-capturing move the piece stays on both squares | starting position, black plays b1-b3, then `retract()`: b3 still holds a black piece | the destination of a non-capturing move is emptied, so make then retract restores every cell | not executed | Rules.FirstMoveRetractAsWritten | Rules.MakeRetract |
| loa/Board.java:170 | `retract()` calls `computeRegions()`, which returns at once because `_subsetsInitialized` is still true from `makeMove`, so the cached region sizes stay those of the position after the move | any capture followed by `retract()`: the captured colour's cached sizes add up to one piece fewer than the board holds | the cache is marked stale before recomputing, so the regions after retract are those of the restored cells | not executed | Rules.RetractAsWrittenStale | Rules.Retracted |
