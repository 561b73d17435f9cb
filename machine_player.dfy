// MachinePlayer: the automated player's fail-soft alpha-beta search, proved
// against the unpruned minimax value of search.dfy.  Within any window
// (alpha, beta) the value findMove returns agrees with the minimax value
// once both are clamped to the window, is exactly the minimax value in the
// full window, and the move the root search records is the move Choice
// names.

module Players {
  import opened Pieces
  import opened Squares
  import opened Moves
  import opened Regions
  import opened Rules
  import opened Boards
  import opened Search

  class MachinePlayer {
    /** side(): the pieces this player moves. */
    const side: Piece
    /** _foundMove: the move findMove last recorded (null as None). */
    var foundMove: Option<Move>

    /** MachinePlayer(side, game), without the game, which only supplies the board. */
    constructor (side: Piece)
      ensures this.side == side && foundMove == None
    {
      this.side := side;
      foundMove := None;
    }

    /** searchForMove(): search a copy of the board to chooseDepth() for the
     *  side on move and report the move found, None (null) when the game is
     *  already over or no legal move exists. The board is left unchanged. */
    method SearchForMove(game: Board) returns (choice: Option<Move>)
      requires game.Valid() && Searchable(game.State()) && game.State().turn == side
      modifies this
      ensures choice == Choice(old(game.State()), ChooseDepth(), side)
      ensures game.State() == old(game.State())
    {
      var work := new Board.Copy(game);
      foundMove := None;
      var _ := FindMove(work, ChooseDepth(), side, -INFTY, INFTY);
      choice := foundMove;
    }

    /** findMove(board, depth, p, alpha, beta): the fail-soft alpha-beta
     *  value of board for maximiser p. Clamped to the window it is the
     *  minimax value clamped to the window, and in the full window it is the
     *  minimax value itself. At a leaf the value is the heuristic score in
     *  any window and no move is recorded; at a maximising
     *  node searched in the full window the recorded move is Choice's. */
    method FindMove(board: Board, depth: int, p: Piece, alpha: int, beta: int) returns (v: int)
      requires board.Valid() && Searchable(board.State())
      requires 0 <= depth < DEPTH_BOUND && -INFTY <= alpha < beta <= INFTY
      modifies this, board
      ensures Clamp(alpha, beta, v) == Clamp(alpha, beta, Minimax(old(board.State()), depth, p))
      ensures alpha == -INFTY && beta == INFTY ==> v == Minimax(old(board.State()), depth, p)
      ensures -WINNING_VALUE - depth <= v <= WINNING_VALUE + depth
      ensures !Expands(old(board.State()), depth) ==> v == Heuristic(old(board.State()), p, depth)
      ensures !Expands(old(board.State()), depth) ==> foundMove == old(foundMove)
      ensures (Expands(old(board.State()), depth) && old(board.State()).turn == p
        && alpha == -INFTY && beta == INFTY) ==> foundMove == Choice(old(board.State()), depth, p)
      decreases depth, 3
    {
      ghost var s := board.State();
      var leaf := depth <= 0;
      var legal: seq<Move> := [];
      if !leaf {
        var w := board.Winner();
        VerdictIsWinner(s);
        leaf := w.Some?;
        if !leaf {
          OpenWithoutVerdict(s);
          legal := board.LegalMoves();
          leaf := |legal| == 0;
        }
      }
      if leaf {
        if depth > 0 {
          HeuristicOfVerdict(s, board.State(), p, depth);
        }
        v := CalcHeuristic(board, p, depth);
      } else {
        ghost var vs := ExpandedValues(s, depth, p);
        var t := board.Turn();
        if t == p {
          var best;
          v, best := MaxNode(board, legal, vs, depth, p, alpha, beta);
          foundMove := best;
        } else {
          v := MinNode(board, legal, vs, depth, p, alpha, beta);
        }
      }
      if alpha == -INFTY && beta == INFTY {
        FullWindowExact(v, Minimax(s, depth, p));
      }
    }

    /** The maximising loop of findMove over the legal moves ms of board:
     *  each child is searched in the window narrowed by the best value so
     *  far, the search stops once that reaches beta, and the move returned
     *  (which findMove records) is the first move of strictly greatest value. */
    method MaxNode(board: Board, ms: seq<Move>, ghost vs: seq<int>, depth: int, p: Piece, alpha: int, beta: int)
      returns (bestVal: int, bestMove: Option<Move>)
      requires board.Valid() && Open(board.State()) && ms != []
      requires forall m :: m in ms ==> LegalMove(board.State(), m)
      requires 1 <= depth < DEPTH_BOUND && -INFTY <= alpha < beta <= INFTY
      requires ValuesOf(vs, board.State(), ms, depth, p)
      modifies this
      ensures Clamp(alpha, beta, bestVal) == Clamp(alpha, beta, MaxList(vs))
      ensures alpha == -INFTY && beta == INFTY ==> bestMove == Kept(ms, vs)
      ensures -WINNING_VALUE - depth < bestVal < WINNING_VALUE + depth
      decreases depth, 2
    {
      ghost var s := board.State();
      ghost var full := alpha == -INFTY && beta == INFTY;
      bestVal := -INFTY;
      bestMove := None;
      var a := alpha;
      var i := 0;
      while i < |ms|
        invariant 0 <= i <= |ms|
        invariant a == Max(alpha, bestVal) && a < beta
        invariant if i == 0 then bestVal == -INFTY else -WINNING_VALUE - depth < bestVal < WINNING_VALUE + depth
        invariant Clamp(alpha, beta, bestVal) == Clamp(alpha, beta, MaxList(vs[..i]))
        invariant full ==> bestMove == KeptPrefix(ms, vs, i)
      {
        bestVal, bestMove := MaxChild(board, s, ms, vs, i, depth, p, alpha, beta, bestVal, bestMove);
        a := Max(a, bestVal);
        if beta <= a {
          ListPrefix(vs, i + 1);
          break;
        }
        i := i + 1;
      }
      if i == |ms| {
        assert vs[..i] == vs && ms[..i] == ms;
      }
    }

    /** One pass of the maximising loop: search child i in the window
     *  (Max(alpha, best), beta), take its move when its value is strictly
     *  above best, and raise best to it. */
    method MaxChild(board: Board, ghost s: BoardState, ms: seq<Move>, ghost vs: seq<int>, i: int,
                    depth: int, p: Piece, alpha: int, beta: int, best: int, kept: Option<Move>)
      returns (best': int, kept': Option<Move>)
      requires board.Valid() && board.State() == s && Open(s)
      requires forall m :: m in ms ==> LegalMove(s, m)
      requires 0 <= i < |ms| && 1 <= depth < DEPTH_BOUND
      requires ValuesOf(vs, s, ms, depth, p)
      requires -INFTY <= alpha && -INFTY <= best < WINNING_VALUE + depth && Max(alpha, best) < beta <= INFTY
      requires Clamp(alpha, beta, best) == Clamp(alpha, beta, MaxList(vs[..i]))
      requires alpha == -INFTY && beta == INFTY ==> kept == KeptPrefix(ms, vs, i)
      modifies this
      ensures best <= best' && -WINNING_VALUE - depth < best' < WINNING_VALUE + depth
      ensures Clamp(alpha, beta, best') == Clamp(alpha, beta, MaxList(vs[..i + 1]))
      ensures alpha == -INFTY && beta == INFTY ==> kept' == KeptPrefix(ms, vs, i + 1)
      decreases depth, 1
    {
      var val := SearchChild(board, s, ms, vs, i, depth, p, Max(alpha, best), beta);
      MaxStep(alpha, beta, ms, vs, i, best, kept, val);
      kept' := if best < val then Some(ms[i]) else kept;
      best' := Max(best, val);
    }

    /** The minimising loop of findMove: each child is searched in the window
     *  whose top is lowered by the best value so far, and the search stops
     *  once that reaches alpha. */
    method MinNode(board: Board, ms: seq<Move>, ghost vs: seq<int>, depth: int, p: Piece, alpha: int, beta: int)
      returns (bestVal: int)
      requires board.Valid() && Open(board.State()) && ms != []
      requires forall m :: m in ms ==> LegalMove(board.State(), m)
      requires 1 <= depth < DEPTH_BOUND && -INFTY <= alpha < beta <= INFTY
      requires ValuesOf(vs, board.State(), ms, depth, p)
      modifies this
      ensures Clamp(alpha, beta, bestVal) == Clamp(alpha, beta, MinList(vs))
      ensures -WINNING_VALUE - depth < bestVal < WINNING_VALUE + depth
      decreases depth, 2
    {
      ghost var s := board.State();
      bestVal := INFTY;
      var b2 := beta;
      var i := 0;
      while i < |ms|
        invariant 0 <= i <= |ms|
        invariant b2 == Min(beta, bestVal) && alpha < b2
        invariant if i == 0 then bestVal == INFTY else -WINNING_VALUE - depth < bestVal < WINNING_VALUE + depth
        invariant Clamp(alpha, beta, bestVal) == Clamp(alpha, beta, MinList(vs[..i]))
      {
        var val := SearchChild(board, s, ms, vs, i, depth, p, alpha, b2);
        ListStep(vs, i);
        MinWindowStep(alpha, beta, bestVal, MinList(vs[..i]), val, vs[i]);
        bestVal := Min(bestVal, val);
        b2 := Min(bestVal, b2);
        if b2 <= alpha {
          ListPrefix(vs, i + 1);
          break;
        }
        i := i + 1;
      }
      if i == |ms| {
        assert vs[..i] == vs;
      }
    }

    /** One child of a findMove loop: copy the board, make move ms[i] on the
     *  copy and search it one level shallower in the window (alpha, beta);
     *  the value agrees in that window with vs[i], the minimax value of
     *  that child. */
    method SearchChild(board: Board, ghost s: BoardState, ms: seq<Move>, ghost vs: seq<int>, i: int,
                       depth: int, p: Piece, alpha: int, beta: int)
      returns (val: int)
      requires board.Valid() && board.State() == s && Open(s)
      requires forall m :: m in ms ==> LegalMove(s, m)
      requires 0 <= i < |ms| && 1 <= depth < DEPTH_BOUND && -INFTY <= alpha < beta <= INFTY
      requires ValuesOf(vs, s, ms, depth, p)
      modifies this
      ensures Clamp(alpha, beta, val) == Clamp(alpha, beta, vs[i])
      ensures -WINNING_VALUE - depth < val < WINNING_VALUE + depth
      ensures -WINNING_VALUE - depth < vs[i] < WINNING_VALUE + depth
      decreases depth, 0
    {
      assert vs[i] == ChildValue(s, ms[i], depth, p);
      var b := new Board.Copy(board);
      b.MakeMove(ms[i]);
      assert b.State() == Child(s, ms[i]);
      val := FindMove(b, depth - 1, p, alpha, beta);
    }

    /** calcHeuristic(b, p, depth): the region sizes of both colours, then
     *  the winner, scored as Heuristic scores the board it was given. The
     *  board afterwards has its region cache computed and winner() asked. */
    method CalcHeuristic(b: Board, p: Piece, depth: int) returns (value: int)
      requires b.Valid() && Searchable(b.State())
      modifies b
      ensures b.Valid() && b.State() == WinnerOf(WithRegions(old(b.State()))).1
      ensures value == Heuristic(old(b.State()), p, depth)
    {
      ghost var s := b.State();
      var whiteSizes := b.GetRegionSizes(WP);
      var blackSizes := b.GetRegionSizes(BP);
      ghost var s1 := b.State();
      assert s1 == WithRegions(s);
      VerdictIsWinner(s1);
      var w := b.Winner();
      if w == Some(p) {
        value := WINNING_VALUE + depth;
      } else {
        ghost var s2 := b.State();
        VerdictIsWinner(s2);
        var w2 := b.Winner();
        if w2 == Some(Opposite(p)) {
          value := -WINNING_VALUE - depth;
        } else {
          value := 1000 / |whiteSizes| - 1000 / |blackSizes| + 10 * whiteSizes[0] - 10 * blackSizes[0];
          if p == BP {
            value := -value;
          }
        }
      }
    }
  }
}
