// The game-tree value that MachinePlayer's search computes: the static
// heuristic of calcHeuristic, and plain minimax over the same tree of boards
// that findMove visits, with no pruning.  The pruned search in
// machine_player.dfy is proved against these definitions.

module Search {
  import opened Pieces
  import opened Squares
  import opened Moves
  import opened Regions
  import opened Rules

  /** INFTY: Integer.MAX_VALUE, a magnitude greater than any position value. */
  const INFTY: int := 0x7fff_ffff

  /** WINNING_VALUE: the magnitude of a decided position, before the depth bonus. */
  const WINNING_VALUE: int := INFTY - 20

  /** Depths below this keep every value strictly inside (-INFTY, INFTY). */
  const DEPTH_BOUND: int := 20

  /** chooseDepth(): the fixed search depth. */
  function ChooseDepth(): (d: int)
    ensures 0 < d < DEPTH_BOUND
  {
    4
  }

  function Min(a: int, b: int): int { if a <= b then a else b }

  /** v forced into the window [lo, hi]. */
  function Clamp(lo: int, hi: int, v: int): int {
    if v <= lo then lo else if v >= hi then hi else v
  }

  // ---------------------------------------------------------------- positions searched

  /** A board the search can score: consistent fields, a region cache that
   *  is either stale-marked or current, and at least one piece of each
   *  colour (calcHeuristic divides by the number of regions of each). */
  ghost predicate Searchable(s: BoardState) {
    WellFormed(s) && RegionsFresh(s)
    && PieceCount(s.cells, WP) >= 1 && PieceCount(s.cells, BP) >= 1
  }

  /** A searchable board with no winner yet: each colour has at least two
   *  pieces, so a capture still leaves one. */
  ghost predicate Open(s: BoardState) {
    Searchable(s) && !s.winnerKnown
    && PieceCount(s.cells, WP) >= 2 && PieceCount(s.cells, BP) >= 2
  }

  /** The winner of a board: the cached one when it is known, otherwise the
   *  one the rules name for its cells and move count. */
  ghost function Verdict(s: BoardState): Option<Piece>
    requires WellFormed(s)
  {
    if s.winnerKnown then s.winner else Outcome(s.cells, MovesMade(s), s.moveLimit)
  }

  /** winner() answers the verdict; when there is none, all it leaves behind
   *  is the computed region cache. */
  lemma VerdictIsWinner(s: BoardState)
    requires Searchable(s)
    ensures WinnerOf(s).0 == Verdict(s)
    ensures Verdict(WinnerOf(s).1) == Verdict(s)
    ensures Verdict(s) == None ==> WinnerOf(s).1 == WithRegions(s)
  {
    if !s.winnerKnown {
      WinnerRule(s);
    }
  }

  /** A board with no verdict, its region cache computed, is open. */
  lemma OpenWithoutVerdict(s: BoardState)
    requires Searchable(s) && Verdict(s) == None
    ensures Open(WithRegions(s)) && Verdict(WithRegions(s)) == None
  {
    var w, b := RegionSizes(s.cells, WP), RegionSizes(s.cells, BP);
    SumPositive(w);
    SumPositive(b);
  }

  /** The board after a legal move of an open board: searchable again. */
  ghost function Child(s: BoardState, m: Move): (r: BoardState)
    requires Open(s) && LegalMove(s, m)
    ensures Searchable(r)
    ensures r.cells == MovedCells(s.cells, m.from, m.to) && r.turn == Opposite(s.turn)
  {
    LegalIsMovable(s, m);
    PlayedCounts(s, m);
    Played(s, m)
  }

  // ---------------------------------------------------------------- the heuristic

  /** The undecided-position score: fewer regions and a larger largest
   *  region are better for a colour; the result is from WP's side, negated
   *  for BP. */
  function Score(white: seq<int>, black: seq<int>, p: Piece): int
    requires |white| >= 1 && |black| >= 1
  {
    var value := 1000 / |white| - 1000 / |black| + 10 * white[0] - 10 * black[0];
    if p == BP then -value else value
  }

  lemma DivBound(n: int)
    requires n >= 1
    ensures 0 <= 1000 / n <= 1000
  {
  }

  /** With region sizes between 1 and 64, the score is far from a winning value. */
  lemma ScoreBounds(white: seq<int>, black: seq<int>, p: Piece)
    requires |white| >= 1 && |black| >= 1
    requires 1 <= white[0] <= 64 && 1 <= black[0] <= 64
    ensures -1640 <= Score(white, black, p) <= 1640
  {
    DivBound(|white|);
    DivBound(|black|);
  }

  /** The static value of s for maximiser p at the given depth: a win for p
   *  scores WINNING_VALUE + depth, a win for the other side the negation,
   *  anything else (a tie included) the Score of the true region sizes.
   *  It never reaches WINNING_VALUE + depth in magnitude otherwise. */
  ghost function Heuristic(s: BoardState, p: Piece, depth: int): (v: int)
    requires Searchable(s)
    ensures 0 <= depth ==> -WINNING_VALUE - depth <= v <= WINNING_VALUE + depth
    ensures Verdict(s) == Some(p) ==> v == WINNING_VALUE + depth
    ensures Verdict(s) == Some(Opposite(p)) && p != EMP ==> v == -WINNING_VALUE - depth
  {
    var w := Verdict(s);
    if w == Some(p) then WINNING_VALUE + depth
    else if w == Some(Opposite(p)) then -WINNING_VALUE - depth
    else
      var white, black := RegionSizes(s.cells, WP), RegionSizes(s.cells, BP);
      SumPositive(white);
      SumPositive(black);
      ScoreBounds(white, black, p);
      Score(white, black, p)
  }

  /** Boards that agree on cells and verdict score alike. */
  lemma HeuristicOfVerdict(s: BoardState, t: BoardState, p: Piece, depth: int)
    requires Searchable(s) && Searchable(t)
    requires t.cells == s.cells && Verdict(t) == Verdict(s)
    ensures Heuristic(t, p, depth) == Heuristic(s, p, depth)
  {
  }

  // ---------------------------------------------------------------- best of a list of values

  /** The larger of -INFTY and every value of vs: the running maximum of
   *  findMove's maximising loop, seeded with -INFTY. */
  function MaxList(vs: seq<int>): int {
    if vs == [] then -INFTY else Max(MaxList(vs[..|vs| - 1]), vs[|vs| - 1])
  }

  /** The smaller of INFTY and every value of vs. */
  function MinList(vs: seq<int>): int {
    if vs == [] then INFTY else Min(MinList(vs[..|vs| - 1]), vs[|vs| - 1])
  }

  /** The move the maximising loop keeps: the move of a value is taken
   *  only when that value is strictly above every value before it. */
  function Kept(ms: seq<Move>, vs: seq<int>): Option<Move>
    requires |ms| == |vs|
  {
    if vs == [] then None
    else if MaxList(vs[..|vs| - 1]) < vs[|vs| - 1] then Some(ms[|ms| - 1])
    else Kept(ms[..|ms| - 1], vs[..|vs| - 1])
  }

  /** Kept for the first i moves and values. */
  function KeptPrefix(ms: seq<Move>, vs: seq<int>, i: int): Option<Move>
    requires |ms| == |vs| && 0 <= i <= |vs|
  {
    Kept(ms[..i], vs[..i])
  }

  /** One more value: the recurrences of MaxList and MinList on a prefix. */
  lemma ListStep(vs: seq<int>, i: int)
    requires 0 <= i < |vs|
    ensures MaxList(vs[..i + 1]) == Max(MaxList(vs[..i]), vs[i])
    ensures MinList(vs[..i + 1]) == Min(MinList(vs[..i]), vs[i])
  {
    assert vs[..i + 1][..i] == vs[..i];
  }

  /** One more value: the recurrence of Kept on a prefix. */
  lemma KeptStep(ms: seq<Move>, vs: seq<int>, i: int)
    requires |ms| == |vs| && 0 <= i < |vs|
    ensures Kept(ms[..i + 1], vs[..i + 1]) ==
      if MaxList(vs[..i]) < vs[i] then Some(ms[i]) else Kept(ms[..i], vs[..i])
  {
    assert vs[..i + 1][..i] == vs[..i];
    assert ms[..i + 1][..i] == ms[..i];
  }

  /** MaxList is the largest value and MinList the smallest: no value lies
   *  outside them, and a non-empty list reaches both. */
  lemma {:induction false} ListExtremes(vs: seq<int>)
    requires forall j :: 0 <= j < |vs| ==> -INFTY < vs[j] < INFTY
    ensures forall j :: 0 <= j < |vs| ==> MinList(vs) <= vs[j] <= MaxList(vs)
    ensures vs != [] ==> exists j :: 0 <= j < |vs| && vs[j] == MaxList(vs)
    ensures vs != [] ==> exists j :: 0 <= j < |vs| && vs[j] == MinList(vs)
  {
    if vs != [] {
      var n := |vs| - 1;
      var front := vs[..n];
      ListExtremes(front);
      assert forall j :: 0 <= j < n ==> vs[j] == front[j];
      if vs[n] != MaxList(vs) {
        var j :| 0 <= j < n && front[j] == MaxList(front);
        assert vs[j] == MaxList(vs);
      }
      if vs[n] != MinList(vs) {
        var k :| 0 <= k < n && front[k] == MinList(front);
        assert vs[k] == MinList(vs);
      }
    }
  }

  /** Values within [lo, hi] have their maximum and minimum there too. */
  lemma {:induction false} ListBounds(vs: seq<int>, lo: int, hi: int)
    requires -INFTY < lo && hi < INFTY
    requires vs != [] && forall j :: 0 <= j < |vs| ==> lo <= vs[j] <= hi
    ensures lo <= MaxList(vs) <= hi && lo <= MinList(vs) <= hi
  {
    ListExtremes(vs);
  }

  /** A longer list can only raise MaxList and lower MinList. */
  lemma {:induction false} ListPrefix(vs: seq<int>, i: int)
    requires 0 <= i <= |vs|
    ensures MaxList(vs[..i]) <= MaxList(vs) && MinList(vs) <= MinList(vs[..i])
    decreases |vs| - i
  {
    if i == |vs| {
      assert vs[..i] == vs;
    } else {
      ListPrefix(vs, i + 1);
      ListStep(vs, i);
    }
  }

  /** The kept move is the move of the first value to reach the maximum:
   *  its value is MaxList(vs) and every value before it is strictly less,
   *  provided every value is above -INFTY. */
  lemma {:induction false} KeptIsFirstMax(ms: seq<Move>, vs: seq<int>)
    requires |ms| == |vs| && vs != []
    requires forall j :: 0 <= j < |vs| ==> -INFTY < vs[j] < INFTY
    ensures exists k :: (0 <= k < |vs| && Kept(ms, vs) == Some(ms[k]) && vs[k] == MaxList(vs)
      && forall j :: 0 <= j < k ==> vs[j] < MaxList(vs))
  {
    var n := |vs| - 1;
    var front, mfront := vs[..n], ms[..n];
    assert forall j :: 0 <= j < n ==> vs[j] == front[j] && ms[j] == mfront[j];
    if MaxList(front) < vs[n] {
      ListExtremes(front);
      assert Kept(ms, vs) == Some(ms[n]);
    } else {
      assert front != [];
      KeptIsFirstMax(mfront, front);
      var k :| 0 <= k < n && Kept(mfront, front) == Some(mfront[k]) && front[k] == MaxList(front)
        && (forall j :: 0 <= j < k ==> front[j] < MaxList(front));
      assert ms[k] == mfront[k] && vs[k] == front[k];
    }
  }

  // ---------------------------------------------------------------- minimax

  /** findMove's leaf test fails: positive depth, no winner, some legal move. */
  ghost predicate Expands(s: BoardState, depth: int)
    requires Searchable(s)
  {
    depth > 0 && Verdict(s) == None && |AllLegalMoves(WithRegions(s))| > 0
  }

  /** The value of s to depth `depth` for maximiser p, unpruned: a leaf (no
   *  depth left, a winner, or no legal move) is scored by the heuristic;
   *  otherwise, over the board with its regions computed, the maximiser
   *  takes the largest child value and the other side the smallest. No
   *  value reaches -INFTY or INFTY. */
  ghost function Minimax(s: BoardState, depth: int, p: Piece): (v: int)
    requires Searchable(s) && 0 <= depth < DEPTH_BOUND
    ensures -WINNING_VALUE - depth <= v <= WINNING_VALUE + depth
    decreases depth, 2
  {
    if depth <= 0 || Verdict(s).Some? then Heuristic(s, p, depth)
    else
      var s1 := WithRegions(s);
      var ms := AllLegalMoves(s1);
      if |ms| == 0 then Heuristic(s, p, depth)
      else
        OpenWithoutVerdict(s);
        LegalMovesExact(s1);
        var vs := Values(s1, ms, depth, p);
        ListBounds(vs, -WINNING_VALUE - depth + 1, WINNING_VALUE + depth - 1);
        if s.turn == p then MaxList(vs) else MinList(vs)
  }

  /** The minimax values of the children reached by the moves ms, in order
   *  (ValuesAt), all strictly inside the depth's bounds. */
  ghost function Values(s: BoardState, ms: seq<Move>, depth: int, p: Piece): (vs: seq<int>)
    requires Open(s) && 1 <= depth < DEPTH_BOUND
    requires forall m :: m in ms ==> LegalMove(s, m)
    ensures |vs| == |ms|
    ensures forall j :: 0 <= j < |vs| ==> -WINNING_VALUE - depth < vs[j] < WINNING_VALUE + depth
    decreases depth, 1
  {
    seq(|ms|, j requires 0 <= j < |ms| => ChildValue(s, ms[j], depth, p))
  }

  /** The minimax value, one level shallower, of the child move m leads to. */
  ghost function ChildValue(s: BoardState, m: Move, depth: int, p: Piece): (v: int)
    requires Open(s) && LegalMove(s, m) && 1 <= depth < DEPTH_BOUND
    ensures -WINNING_VALUE - depth < v < WINNING_VALUE + depth
    decreases depth, 0
  {
    Minimax(Child(s, m), depth - 1, p)
  }

  /** vs lists the child values of the moves ms: entry j is the minimax
   *  value of the board after move j. */
  ghost predicate ValuesOf(vs: seq<int>, s: BoardState, ms: seq<Move>, depth: int, p: Piece)
    requires Open(s) && 1 <= depth < DEPTH_BOUND
    requires forall m :: m in ms ==> LegalMove(s, m)
  {
    |vs| == |ms| &&
    forall j {:trigger ChildValue(s, ms[j], depth, p)} :: 0 <= j < |ms| ==> vs[j] == ChildValue(s, ms[j], depth, p)
  }

  /** Values lists the child values of its moves. */
  lemma ValuesAreValuesOf(s: BoardState, ms: seq<Move>, depth: int, p: Piece)
    requires Open(s) && 1 <= depth < DEPTH_BOUND
    requires forall m :: m in ms ==> LegalMove(s, m)
    ensures ValuesOf(Values(s, ms, depth, p), s, ms, depth, p)
  {
  }

  /** The move searchForMove reports for s: the kept move of the maximising
   *  loop when the search expands s for the side on move, and none otherwise. */
  ghost function Choice(s: BoardState, depth: int, p: Piece): Option<Move>
    requires Searchable(s) && 0 <= depth < DEPTH_BOUND
  {
    if Expands(s, depth) && s.turn == p then
      var s1 := WithRegions(s);
      OpenWithoutVerdict(s);
      LegalMovesExact(s1);
      Kept(AllLegalMoves(s1), Values(s1, AllLegalMoves(s1), depth, p))
    else None
  }

  /** The search reports a move from s, for the side on move, exactly when
   *  the game is not over and a legal move exists. */
  lemma ChoiceWhen(s: BoardState, depth: int, p: Piece)
    requires Searchable(s) && 0 < depth < DEPTH_BOUND && s.turn == p
    ensures Choice(s, depth, p).Some? <==> Verdict(s) == None && |AllLegalMoves(WithRegions(s))| > 0
  {
    if Expands(s, depth) {
      MinimaxExpanded(s, depth, p);
      var ms := AllLegalMoves(WithRegions(s));
      KeptIsFirstMax(ms, Values(WithRegions(s), ms, depth, p));
    }
  }

  /** The move the search reports from s, when there is one and the side on
   *  move is the maximiser: it is the k-th entry of the legal move list of s
   *  (with its regions computed) for a k whose child value -- entry k of
   *  Values, the minimax value of that move's child -- is the minimax value
   *  of s, while every move listed before it has a strictly smaller one. */
  lemma ChoiceIsBest(s: BoardState, depth: int, p: Piece)
    requires Searchable(s) && 0 < depth < DEPTH_BOUND && s.turn == p
    requires Verdict(s) == None && |AllLegalMoves(WithRegions(s))| > 0
    ensures Open(WithRegions(s)) && forall m :: m in AllLegalMoves(WithRegions(s)) ==> LegalMove(WithRegions(s), m)
    ensures var ms := AllLegalMoves(WithRegions(s));
      var vs := Values(WithRegions(s), ms, depth, p);
      exists k :: (0 <= k < |ms| && Choice(s, depth, p) == Some(ms[k]) && vs[k] == Minimax(s, depth, p)
        && forall j :: 0 <= j < k ==> vs[j] < Minimax(s, depth, p))
  {
    MinimaxExpanded(s, depth, p);
    var ms := AllLegalMoves(WithRegions(s));
    var vs := Values(WithRegions(s), ms, depth, p);
    KeptIsFirstMax(ms, vs);
  }

  /** An expanded node is the maximum or the minimum of its children's values. */
  lemma MinimaxExpanded(s: BoardState, depth: int, p: Piece)
    requires Searchable(s) && 0 <= depth < DEPTH_BOUND && Expands(s, depth)
    ensures Open(WithRegions(s)) && forall m :: m in AllLegalMoves(WithRegions(s)) ==> LegalMove(WithRegions(s), m)
    ensures Minimax(s, depth, p) == var vs := Values(WithRegions(s), AllLegalMoves(WithRegions(s)), depth, p);
      if s.turn == p then MaxList(vs) else MinList(vs)
  {
    OpenWithoutVerdict(s);
    LegalMovesExact(WithRegions(s));
  }

  /** The child values of an expanded node, listed as ValuesOf lists them:
   *  the node's minimax value is their maximum or minimum, and Choice is
   *  the move Kept keeps over them. */
  lemma ExpandedValues(s: BoardState, depth: int, p: Piece) returns (vs: seq<int>)
    requires Searchable(s) && 0 <= depth < DEPTH_BOUND && Expands(s, depth)
    ensures Open(WithRegions(s)) && forall m :: m in AllLegalMoves(WithRegions(s)) ==> LegalMove(WithRegions(s), m)
    ensures ValuesOf(vs, WithRegions(s), AllLegalMoves(WithRegions(s)), depth, p)
    ensures Minimax(s, depth, p) == if s.turn == p then MaxList(vs) else MinList(vs)
    ensures s.turn == p ==> Choice(s, depth, p) == Kept(AllLegalMoves(WithRegions(s)), vs)
  {
    MinimaxExpanded(s, depth, p);
    vs := Values(WithRegions(s), AllLegalMoves(WithRegions(s)), depth, p);
    ValuesAreValuesOf(WithRegions(s), AllLegalMoves(WithRegions(s)), depth, p);
  }

  // ---------------------------------------------------------------- the window

  /** A fail-soft max step: with the window still open after the values
   *  seen so far, a child value that is right up to the window at the
   *  current alpha keeps the running maximum right up to the window. */
  lemma MaxWindowStep(alpha: int, beta: int, best: int, exact: int, v: int, t: int)
    requires Max(alpha, best) < beta
    requires Clamp(alpha, beta, best) == Clamp(alpha, beta, exact)
    requires Clamp(Max(alpha, best), beta, v) == Clamp(Max(alpha, best), beta, t)
    ensures Clamp(alpha, beta, Max(best, v)) == Clamp(alpha, beta, Max(exact, t))
  {
  }

  /** The fail-soft min step, symmetric to MaxWindowStep. */
  lemma MinWindowStep(alpha: int, beta: int, best: int, exact: int, v: int, t: int)
    requires alpha < Min(beta, best)
    requires Clamp(alpha, beta, best) == Clamp(alpha, beta, exact)
    requires Clamp(alpha, Min(beta, best), v) == Clamp(alpha, Min(beta, best), t)
    ensures Clamp(alpha, beta, Min(best, v)) == Clamp(alpha, beta, Min(exact, t))
  {
  }

  /** One iteration of the maximising loop: after child i, of fail-soft
   *  value v searched in the narrowed window, the best value still agrees
   *  in the window with the maximum over the children so far; in the full
   *  window the move kept is Kept's for that prefix. */
  lemma MaxStep(alpha: int, beta: int, ms: seq<Move>, vs: seq<int>, i: int, best: int, kept: Option<Move>, v: int)
    requires |ms| == |vs| && 0 <= i < |vs|
    requires -INFTY <= alpha && -INFTY <= best && Max(alpha, best) < beta <= INFTY
    requires -INFTY < vs[i] < INFTY && v < INFTY
    requires Clamp(alpha, beta, best) == Clamp(alpha, beta, MaxList(vs[..i]))
    requires Clamp(Max(alpha, best), beta, v) == Clamp(Max(alpha, best), beta, vs[i])
    requires alpha == -INFTY && beta == INFTY ==> kept == KeptPrefix(ms, vs, i)
    ensures Clamp(alpha, beta, Max(best, v)) == Clamp(alpha, beta, MaxList(vs[..i + 1]))
    ensures alpha == -INFTY && beta == INFTY ==>
      (if best < v then Some(ms[i]) else kept) == KeptPrefix(ms, vs, i + 1)
  {
    ListStep(vs, i);
    MaxWindowStep(alpha, beta, best, MaxList(vs[..i]), v, vs[i]);
    if alpha == -INFTY && beta == INFTY {
      KeptStep(ms, vs, i);
      ExactMaxStep(best, v, vs[i]);
    }
  }

  /** Strictly inside the full window clamping changes nothing, so values
   *  that agree there are equal. */
  lemma FullWindowExact(v: int, t: int)
    requires -INFTY < v < INFTY && -INFTY < t < INFTY
    requires Clamp(-INFTY, INFTY, v) == Clamp(-INFTY, INFTY, t)
    ensures v == t
  {
  }

  /** With the full window, a fail-soft child value decides a strict
   *  improvement and the new maximum exactly as the true value would. */
  lemma ExactMaxStep(best: int, v: int, t: int)
    requires -INFTY <= best < INFTY && v < INFTY && -INFTY < t < INFTY
    requires Clamp(best, INFTY, v) == Clamp(best, INFTY, t)
    ensures (best < v <==> best < t) && Max(best, v) == Max(best, t)
  {
  }
}
