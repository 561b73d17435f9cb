// The Board class: a 64-cell array and the fields Board keeps beside it.
// Each method is proved to leave the fields exactly as the corresponding
// function of module Rules says.

module Boards {
  import opened Pieces
  import opened Squares
  import opened Moves
  import opened Regions
  import opened Rules

  /** Java's int arithmetic: x wrapped into [-2^31, 2^31). */
  function Wrap32(x: int): (r: int)
    ensures -0x8000_0000 <= r < 0x8000_0000
    ensures -0x8000_0000 <= x < 0x8000_0000 ==> r == x
  {
    (x + 0x8000_0000) % 0x1_0000_0000 - 0x8000_0000
  }

  predicate IsInt32(x: int) {
    -0x8000_0000 <= x < 0x8000_0000
  }

  /** numContig's walk keeps every p square of its stack inside the region C. */
  ghost predicate StackInside(cs: seq<Piece>, p: Piece, C: set<int>, stack: seq<Square>)
    requires |cs| == 64
  {
    forall i :: 0 <= i < |stack| && cs[Index(stack[i])] == p ==> Index(stack[i]) in C
  }

  /** Every p neighbour of a counted square is counted or still on the stack. */
  ghost predicate Frontier(cs: seq<Piece>, p: Piece, N: set<int>, stack: seq<Square>) {
    forall a, b {:trigger Linked(cs, p, a, b)} :: a in N && Linked(cs, p, a, b) ==> b in N || SquareAt(b) in stack
  }

  /** One more step along a ray that is still on the board. */
  lemma RayAdvance(from: Square, d: Dir, k: int)
    requires IsCompass(d) && 0 <= k && Exists(Offset(from, d, k).col, Offset(from, d, k).row)
    ensures k < 8 && Offset(Offset(from, d, k), d, 1) == Offset(from, d, k + 1)
  {
    OffBoardStays(from, d, k, k);
    OffsetStep(from, d, k);
  }

  /** The p squares marked in vis are exactly those of S. */
  ghost predicate Marked(cs: seq<Piece>, p: Piece, vis: seq<bool>, S: set<int>) {
    |cs| == 64 && |vis| == 64 && forall j {:trigger vis[j]} :: 0 <= j < 64 && cs[j] == p ==> (vis[j] <==> j in S)
  }

  lemma MarkedAt(cs: seq<Piece>, p: Piece, vis: seq<bool>, S: set<int>, t: int)
    requires Marked(cs, p, vis, S) && 0 <= t < 64
    ensures cs[t] == p ==> (vis[t] <==> t in S)
  {
  }

  /** Marking one square adds it to the marked set when it holds p. */
  lemma MarkOne(cs: seq<Piece>, p: Piece, vis: seq<bool>, S: set<int>, t: int)
    requires Marked(cs, p, vis, S) && 0 <= t < 64
    ensures Marked(cs, p, vis[t := true], if cs[t] == p then S + {t} else S)
  {
  }

  /** With the stack empty, the counted squares are closed under Linked. */
  lemma FrontierClosed(cs: seq<Piece>, p: Piece, N: set<int>)
    requires Frontier(cs, p, N, [])
    ensures Closed(cs, p, N)
  {
  }

  /** Counting a popped p square of C and pushing its neighbours keeps both invariants. */
  lemma PopCounted(cs: seq<Piece>, p: Piece, C: set<int>, N: set<int>, stack: seq<Square>, top: Square)
    requires |cs| == 64 && Closed(cs, p, C) && cs[Index(top)] == p && Index(top) in C
    requires StackInside(cs, p, C, stack + [top]) && Frontier(cs, p, N, stack + [top])
    ensures StackInside(cs, p, C, stack + Adjacent(top))
    ensures Frontier(cs, p, N + {Index(top)}, stack + Adjacent(top))
  {
    var t, adj, st := Index(top), Adjacent(top), stack + Adjacent(top);
    SquareAtIndex(top);
    forall i | 0 <= i < |st| && cs[Index(st[i])] == p
      ensures Index(st[i]) in C
    {
      if i >= |stack| {
        assert st[i] in adj;
        SquareAtIndex(st[i]);
        assert Linked(cs, p, t, Index(st[i]));
      } else {
        assert st[i] == (stack + [top])[i];
      }
    }
    forall a, b | a in N + {t} && Linked(cs, p, a, b) ensures b in N + {t} || SquareAt(b) in st {
      if a == t {
        assert SquareAt(b) in adj;
      } else if SquareAt(b) == top {
        assert b == t;
      } else if b !in N {
        assert SquareAt(b) in stack + [top];
        assert SquareAt(b) in stack;
      }
    }
  }

  /** Popping a square that is not counted again keeps both invariants. */
  lemma PopSkipped(cs: seq<Piece>, p: Piece, C: set<int>, N: set<int>, stack: seq<Square>, top: Square)
    requires |cs| == 64 && (cs[Index(top)] == p ==> Index(top) in N)
    requires StackInside(cs, p, C, stack + [top]) && Frontier(cs, p, N, stack + [top])
    ensures StackInside(cs, p, C, stack) && Frontier(cs, p, N, stack)
  {
    forall i | 0 <= i < |stack| && cs[Index(stack[i])] == p
      ensures Index(stack[i]) in C
    {
      assert stack[i] == (stack + [top])[i];
    }
    forall a, b | a in N && Linked(cs, p, a, b) ensures b in N || SquareAt(b) in stack {
      if SquareAt(b) == top {
        SquareAtIndex(top);
      } else if b !in N {
        assert SquareAt(b) in stack + [top];
      }
    }
  }

  /** Push the squares of adj in order onto the stack. */
  method PushAll(stack: seq<Square>, adj: seq<Square>) returns (r: seq<Square>)
    ensures r == stack + adj
  {
    r := stack;
    var k := 0;
    while k < |adj|
      invariant 0 <= k <= |adj| && r == stack + adj[..k]
    {
      r := r + [adj[k]];
      k := k + 1;
    }
    assert adj[..k] == adj;
  }

  /** The invariant of numContig's walk from r, where C is r's region and V
   *  the squares visited before: vis marks V and the counted squares N,
   *  size counts N, and what is left of C is reachable from the stack. */
  ghost predicate WalkInv(cs: seq<Piece>, p: Piece, C: set<int>, V: set<int>, r: int,
                          vis: seq<bool>, stack: seq<Square>, N: set<int>, size: int)
  {
    |cs| == 64 && 0 <= r < 64 && Marked(cs, p, vis, V + N) && N <= C && size == |N|
    && StackInside(cs, p, C, stack) && Frontier(cs, p, N, stack)
    && (r in N || (N == {} && stack == [SquareAt(r)]))
  }

  /** The walk starts with r alone on the stack and nothing counted. */
  lemma WalkStart(cs: seq<Piece>, p: Piece, V: set<int>, sq: Square, vis: seq<bool>)
    requires Marked(cs, p, vis, V) && Closed(cs, p, V)
    requires cs[Index(sq)] == p && !vis[Index(sq)]
    ensures Index(sq) !in V && Component(cs, p, Index(sq)) !! V
    ensures WalkInv(cs, p, Component(cs, p, Index(sq)), V, Index(sq), vis, [sq], {}, 0)
  {
    var r := Index(sq);
    MarkedAt(cs, p, vis, V, r);
    ComponentDisjoint(cs, p, r, V);
    assert V + {} == V;
    SquareAtIndex(sq);
  }

  /** A popped p square not yet visited is counted, marked, and its
   *  neighbours pushed; fewer squares of C remain uncounted. */
  lemma WalkCounted(cs: seq<Piece>, p: Piece, C: set<int>, V: set<int>, r: int,
                    vis: seq<bool>, prev: seq<Square>, N: set<int>, size: int)
    requires prev != [] && WalkInv(cs, p, C, V, r, vis, prev, N, size)
    requires Closed(cs, p, C) && C !! V
    requires cs[Index(prev[|prev| - 1])] == p && !vis[Index(prev[|prev| - 1])]
    ensures Index(prev[|prev| - 1]) !in N
    ensures WalkInv(cs, p, C, V, r, vis[Index(prev[|prev| - 1]) := true],
                    prev[..|prev| - 1] + Adjacent(prev[|prev| - 1]), N + {Index(prev[|prev| - 1])}, size + 1)
    ensures |C - (N + {Index(prev[|prev| - 1])})| < |C - N|
  {
    var top, stack := prev[|prev| - 1], prev[..|prev| - 1];
    assert prev == stack + [top];
    var t := Index(top);
    MarkedAt(cs, p, vis, V + N, t);
    assert prev[|prev| - 1] == top;
    PopCounted(cs, p, C, N, stack, top);
    MarkOne(cs, p, vis, V + N, t);
    assert V + N + {t} == V + (N + {t});
    assert C - N == (C - (N + {t})) + {t};
    SquareAtIndex(top);
  }

  /** Any other popped square is only marked. */
  lemma WalkSkipped(cs: seq<Piece>, p: Piece, C: set<int>, V: set<int>, r: int,
                    vis: seq<bool>, prev: seq<Square>, N: set<int>, size: int)
    requires prev != [] && WalkInv(cs, p, C, V, r, vis, prev, N, size)
    requires C !! V && cs[r] == p && r !in V
    requires !(cs[Index(prev[|prev| - 1])] == p && !vis[Index(prev[|prev| - 1])])
    ensures WalkInv(cs, p, C, V, r, vis[Index(prev[|prev| - 1]) := true], prev[..|prev| - 1], N, size)
  {
    var top, stack := prev[|prev| - 1], prev[..|prev| - 1];
    assert prev == stack + [top];
    var t := Index(top);
    MarkedAt(cs, p, vis, V + N, t);
    assert prev[|prev| - 1] == top;
    PopSkipped(cs, p, C, N, stack, top);
    SquareAtIndex(top);
    assert r in N;
    MarkOne(cs, p, vis, V + N, t);
    assert (if cs[t] == p then V + N + {t} else V + N) == V + N;
  }

  /** When the stack is empty the whole region has been counted. */
  lemma WalkDone(cs: seq<Piece>, p: Piece, C: set<int>, V: set<int>, r: int,
                 vis: seq<bool>, N: set<int>, size: int)
    requires WalkInv(cs, p, C, V, r, vis, [], N, size)
    requires cs[r] == p && C == Component(cs, p, r)
    ensures size == |C| && Marked(cs, p, vis, V + C)
  {
    FrontierClosed(cs, p, N);
    ComponentLeast(cs, p, r, N);
    assert N == C;
  }

  class Board {
    /** _board: square sq is at cells[Index(sq)]. */
    const cells: array<Piece>
    var turn: Piece
    var moves: seq<Move>
    var moveLimit: int
    var winnerKnown: bool
    var winner: Option<Piece>
    var subsetsInitialized: bool
    var whiteRegionSizes: seq<int>
    var blackRegionSizes: seq<int>

    /** The fields as one value. */
    function State(): BoardState
      reads this, cells
    {
      BoardState(cells[..], turn, moves, moveLimit, winnerKnown, winner,
                 subsetsInitialized, whiteRegionSizes, blackRegionSizes)
    }

    ghost predicate Valid()
      reads this, cells
    {
      cells.Length == 64 && WellFormed(State())
    }

    /** Board(contents, side). */
    constructor FromContents(contents: seq<seq<Piece>>, side: Piece)
      requires IsGrid(contents) && side != EMP
      ensures Valid() && State() == Initialized(contents, side) && fresh(cells)
    {
      cells := new Piece[64](_ => EMP);
      new;
      Initialize(contents, side);
    }

    /** Board(): the standard starting position, black to move. */
    constructor ()
      ensures Valid() && State() == InitialBoard() && fresh(cells)
    {
      cells := new Piece[64](_ => EMP);
      new;
      Initialize(INITIAL_PIECES, BP);
    }

    /** Board(board): a board in the starting position, then set to a copy of board. */
    constructor Copy(board: Board)
      requires board.Valid()
      ensures Valid() && State() == board.State() && fresh(cells)
    {
      cells := new Piece[64](_ => EMP);
      new;
      Initialize(INITIAL_PIECES, BP);
      CopyFrom(board);
    }

    /** initialize(contents, side): contents row by row into the cells, all caches cleared. */
    method Initialize(contents: seq<seq<Piece>>, side: Piece)
      requires cells.Length == 64 && IsGrid(contents) && side != EMP
      modifies this, cells
      ensures Valid() && State() == Initialized(contents, side)
    {
      turn := side;
      moveLimit := DEFAULT_MOVE_LIMIT;
      var i, k := 0, 0;
      while i < |contents|
        invariant 0 <= i <= 8 && k == i * 8
        invariant forall n :: 0 <= n < k ==> cells[n] == contents[n / 8][n % 8]
        invariant turn == side && moveLimit == DEFAULT_MOVE_LIMIT
      {
        var j := 0;
        while j < |contents[i]|
          invariant 0 <= j <= 8 && k == i * 8 + j
          invariant forall n :: 0 <= n < k ==> cells[n] == contents[n / 8][n % 8]
          invariant turn == side && moveLimit == DEFAULT_MOVE_LIMIT
        {
          cells[k] := contents[i][j];
          j, k := j + 1, k + 1;
        }
        i := i + 1;
      }
      assert cells[..] == Flatten(contents);
      moves := [];
      whiteRegionSizes := [];
      blackRegionSizes := [];
      winnerKnown := false;
      winner := None;
      subsetsInitialized := false;
    }

    /** clear(). */
    method Clear()
      requires cells.Length == 64
      modifies this, cells
      ensures Valid() && State() == InitialBoard()
    {
      Initialize(INITIAL_PIECES, BP);
    }

    /** copyFrom(board): nothing to do when board is this board; otherwise
     *  every field is copied. */
    method CopyFrom(board: Board)
      requires Valid() && board.Valid() && (board == this || board.cells != cells)
      modifies this, cells
      ensures Valid() && State() == old(board.State())
    {
      if board == this {
        return;
      }
      var i := 0;
      while i < board.cells.Length
        invariant 0 <= i <= 64
        invariant forall n :: 0 <= n < i ==> cells[n] == board.cells[n]
        invariant board.cells[..] == old(board.cells[..])
      {
        cells[i] := board.cells[i];
        i := i + 1;
      }
      assert cells[..] == board.cells[..];
      moves := board.moves;
      whiteRegionSizes := board.whiteRegionSizes;
      blackRegionSizes := board.blackRegionSizes;
      turn := board.turn;
      moveLimit := board.moveLimit;
      winnerKnown := board.winnerKnown;
      winner := board.winner;
      subsetsInitialized := board.subsetsInitialized;
    }

    /** get(sq). */
    method Get(sq: Square) returns (p: Piece)
      requires Valid()
      ensures p == PieceAt(State(), sq)
    {
      p := cells[Index(sq)];
    }

    /** set(sq, v, next): write one cell, and the side to move when next is given.
     *  Nothing else changes; the region cache is not touched. */
    method Set(sq: Square, v: Piece, next: Option<Piece>)
      requires cells.Length == 64
      modifies this, cells
      ensures cells[..] == old(cells[..])[Index(sq) := v]
      ensures turn == (if next.Some? then next.value else old(turn))
      ensures moves == old(moves) && moveLimit == old(moveLimit)
      ensures winnerKnown == old(winnerKnown) && winner == old(winner)
      ensures subsetsInitialized == old(subsetsInitialized)
      ensures whiteRegionSizes == old(whiteRegionSizes) && blackRegionSizes == old(blackRegionSizes)
    {
      cells[Index(sq)] := v;
      if next.Some? {
        turn := next.value;
      }
    }

    /** setMoveLimit(limit): the limit becomes 2 * limit in 32-bit
     *  arithmetic; ok is false (the IllegalArgumentException) when that is
     *  not above movesMade(), and then nothing changes. */
    method SetMoveLimit(limit: int) returns (ok: bool)
      requires Valid() && IsInt32(limit)
      modifies this
      ensures Valid()
      ensures ok <==> Wrap32(2 * limit) > MovesMade(old(State()))
      ensures State() == if ok then old(State()).(moveLimit := Wrap32(2 * limit)) else old(State())
    {
      var twice := Wrap32(2 * limit);
      if twice <= |moves| {
        return false;
      }
      moveLimit := twice;
      return true;
    }

    /** turn(). */
    method Turn() returns (t: Piece)
      requires Valid()
      ensures t == State().turn && t != EMP
    {
      t := turn;
    }

    /** movesMade(). */
    method MovesMadeCount() returns (n: int)
      requires Valid()
      ensures n == MovesMade(State())
    {
      n := |moves|;
    }

    // ------------------------------------------------------------ legality

    /** oppositeBlocked(from, to): walk the squares strictly between from and to. */
    method OppositeBlocked(from: Square, to: Square) returns (blocked: bool)
      requires Valid() && IsValidMove(from, to)
      ensures blocked == Blocked(cells[..], turn, from, to)
    {
      var distance := Distance(from, to) - 1;
      var d := Direction(from, to).value;
      var cur: Coord := from;
      var steps := 0;
      while distance > 0
        invariant 0 <= distance && steps + distance == Distance(from, to) - 1
        invariant cur == Offset(from, d, steps)
        invariant forall i :: 0 < i <= steps ==> !OpponentAt(cells[..], turn, from, d, i)
      {
        OffsetStep(from, d, steps);
        cur := Offset(cur, d, 1);
        steps, distance := steps + 1, distance - 1;
        if Exists(cur.col, cur.row) && cells[Index(cur)] == Opposite(turn) {
          assert OpponentAt(cells[..], turn, from, d, steps);
          return true;
        }
      }
      return false;
    }

    /** Count the pieces on the ray from `from` along d, up to the board's edge. */
    method CountRay(from: Square, d: Dir) returns (count: int)
      requires Valid() && IsCompass(d)
      ensures count == RayPieces(cells[..], from, d, RAY_STEPS)
    {
      ghost var cs := cells[..];
      var cur: Coord := from;
      var k := 0;
      count := 0;
      while Exists(cur.col, cur.row)
        invariant 0 <= k <= 8 && cur == Offset(from, d, k)
        invariant count == RayPieces(cs, from, d, k)
        decreases 8 - k
      {
        RayAdvance(from, d, k);
        cur := Offset(cur, d, 1);
        k := k + 1;
        if Exists(cur.col, cur.row) && cells[Index(cur)] != EMP {
          count := count + 1;
        }
      }
      if k <= RAY_STEPS {
        RayStable(cs, from, d, k, RAY_STEPS);
      }
    }

    /** numOfPiecesAlongLine(from, to): from itself, plus both rays of the line. */
    method NumOfPiecesAlongLine(from: Square, to: Square) returns (num: int)
      requires Valid() && IsValidMove(from, to)
      ensures num == LinePieces(cells[..], from, to)
    {
      var direction := Direction(from, to).value;
      DirectionReverse(from, to);
      var oppdir := Direction(to, from).value;
      var back := CountRay(from, oppdir);
      var forward := CountRay(from, direction);
      num := 1 + back + forward;
    }

    /** isLegal(from, to). */
    method IsLegal(from: Square, to: Square) returns (legal: bool)
      requires Valid()
      ensures legal == Legal(State(), from, to)
    {
      if cells[Index(from)] != turn {
        return false;
      }
      if cells[Index(to)] == turn {
        return false;
      }
      if !IsValidMove(from, to) {
        return false;
      }
      var blocked := OppositeBlocked(from, to);
      if blocked {
        return false;
      }
      var num := NumOfPiecesAlongLine(from, to);
      if num != Distance(from, to) {
        return false;
      }
      return true;
    }

    /** isLegal(move): the capture flag is checked, then the squares. */
    method IsLegalMove(move: Move) returns (legal: bool)
      requires Valid()
      ensures legal == LegalMove(State(), move)
    {
      if move.isCapture {
        if cells[Index(move.to)] != Opposite(turn) {
          return false;
        }
      }
      legal := IsLegal(move.from, move.to);
    }

    /** Entry [i][j][0] of the move table, kept when it is a legal move. */
    method TableEntryMoves(i: int, j: int) returns (add: seq<Move>)
      requires Valid() && 0 <= i < 64 && 0 <= j < 64
      ensures add == EntryIf(State(), i, j)
    {
      add := [];
      var entry := MoveTable(i, j);
      if entry.Some? {
        var ok := IsLegalMove(entry.value);
        if ok {
          add := [entry.value];
        }
      }
    }

    /** legalMoves(): every table entry that is a move and is legal, row by row. */
    method LegalMoves() returns (legal: seq<Move>)
      requires Valid()
      ensures legal == AllLegalMoves(State())
    {
      legal := [];
      ghost var s := State();
      var i := 0;
      while i < 64
        invariant 0 <= i <= 64
        invariant legal == RowsIf(s, i)
      {
        var j := 0;
        while j < 64
          invariant 0 <= j <= 64
          invariant legal == RowsIf(s, i) + RowIf(s, i, j)
        {
          var add := TableEntryMoves(i, j);
          RowIfStep(s, i, j);
          legal := legal + add;
          j := j + 1;
        }
        assert RowsIf(s, i + 1) == RowsIf(s, i) + RowIf(s, i, 64);
        i := i + 1;
      }
    }

    // ------------------------------------------------------------ regions

    /** numContig(sq, visited, p): the size of the not yet visited region of
     *  p pieces containing sq, found by a depth-first walk with an explicit
     *  stack; every popped square is marked visited.  V is the set of p
     *  squares visited so far, a union of whole regions. */
    method NumContig(sq: Square, visited: array<bool>, p: Piece, ghost V: set<int>) returns (size: int)
      requires cells.Length == 64 && visited.Length == 64
      requires Closed(cells[..], p, V) && Marked(cells[..], p, visited[..], V)
      modifies visited
      ensures cells[Index(sq)] == p && Index(sq) !in V ==>
        size == |Component(cells[..], p, Index(sq))| &&
        Marked(cells[..], p, visited[..], V + Component(cells[..], p, Index(sq)))
      ensures !(cells[Index(sq)] == p && Index(sq) !in V) ==>
        size == 0 && Marked(cells[..], p, visited[..], V)
    {
      var r := Index(sq);
      if cells[r] != p || visited[r] {
        assert cells[r] == p ==> r in V by { MarkedAt(cells[..], p, visited[..], V, r); }
        return 0;
      }
      ghost var cs := cells[..];
      ghost var C := Component(cs, p, r);
      WalkStart(cs, p, V, sq, visited[..]);
      size := 0;
      var stack: seq<Square> := [sq];
      ghost var N: set<int> := {};
      while stack != []
        invariant WalkInv(cs, p, C, V, r, visited[..], stack, N, size)
        decreases |C - N|, |stack|
      {
        ghost var prev := stack;
        var top := stack[|stack| - 1];
        stack := stack[..|stack| - 1];
        var t := Index(top);
        ghost var vis := visited[..];
        if cells[t] == p && !visited[t] {
          WalkCounted(cs, p, C, V, r, vis, prev, N, size);
          N := N + {t};
          size := size + 1;
          stack := PushAll(stack, Adjacent(top));
        } else {
          WalkSkipped(cs, p, C, V, r, vis, prev, N, size);
        }
        visited[t] := true;
        assert visited[..] == vis[t := true];
      }
      WalkDone(cs, p, C, V, r, visited[..], N, size);
      assert cells[..] == cs;
    }

    /** computeRegions(): unless the cache is marked computed, scan the
     *  squares in index order for each colour, recording each new region's
     *  size, then sort each list largest first. */
    method ComputeRegions()
      requires Valid()
      modifies this
      ensures Valid() && State() == WithRegions(old(State()))
    {
      if subsetsInitialized {
        return;
      }
      var white := RegionScan(WP);
      var black := RegionScan(BP);
      whiteRegionSizes := SortDesc(white);
      blackRegionSizes := SortDesc(black);
      subsetsInitialized := true;
    }

    /** One colour's pass of computeRegions(): the region sizes in the order
     *  their lowest-index squares come. */
    method RegionScan(p: Piece) returns (sizes: seq<int>)
      requires Valid()
      ensures sizes == Discover(cells[..], p, 64).0
    {
      var visited := new bool[64](_ => false);
      sizes := [];
      var k := 0;
      while k < 64
        modifies visited
        invariant 0 <= k <= 64
        invariant sizes == Discover(cells[..], p, k).0
        invariant Marked(cells[..], p, visited[..], Discover(cells[..], p, k).1)
      {
        var size := NumContig(SquareAt(k), visited, p, Discover(cells[..], p, k).1);
        if size != 0 {
          sizes := sizes + [size];
        }
        k := k + 1;
      }
    }

    /** getRegionSizes(side): the cached list of side (black's for anything but WP). */
    method GetRegionSizes(side: Piece) returns (sizes: seq<int>)
      requires Valid()
      modifies this
      ensures Valid() && State() == WithRegions(old(State()))
      ensures sizes == SizesFor(State(), side)
    {
      ComputeRegions();
      if side == WP {
        sizes := whiteRegionSizes;
      } else {
        sizes := blackRegionSizes;
      }
    }

    /** piecesContiguous(side): side's pieces form exactly one region. */
    method PiecesContiguous(side: Piece) returns (contiguous: bool)
      requires Valid()
      modifies this
      ensures Valid() && State() == WithRegions(old(State()))
      ensures contiguous <==> |SizesFor(State(), side)| == 1
      ensures side != EMP && RegionsFresh(old(State())) ==>
        (contiguous <==> PieceSet(cells[..], side) != {} && AllJoined(cells[..], side, PieceSet(cells[..], side)))
    {
      var sizes := GetRegionSizes(side);
      contiguous := |sizes| == 1;
      if side != EMP {
        ContiguousIff(cells[..], side);
      }
    }

    // ------------------------------------------------------------ winner and moves

    /** winner(). */
    method Winner() returns (w: Option<Piece>)
      requires Valid()
      modifies this
      ensures Valid() && (w, State()) == WinnerOf(old(State()))
    {
      if !winnerKnown {
        ghost var s0 := State();
        if |moves| >= moveLimit {
          winner := Some(EMP);
          winnerKnown := true;
        }
        ghost var s1 := State();
        assert s1 == if MovesMade(s0) >= s0.moveLimit then Decided(s0, EMP) else s0;
        var white := PiecesContiguous(WP);
        ghost var s2 := State();
        if white {
          winnerKnown := true;
          winner := Some(WP);
        }
        ghost var s3 := State();
        assert s3 == if |s2.whiteSizes| == 1 then Decided(s2, WP) else s2;
        var black := PiecesContiguous(BP);
        ghost var s4 := State();
        if black {
          winnerKnown := true;
          winner := Some(BP);
        }
        assert State() == if |s4.blackSizes| == 1 then Decided(s4, BP) else s4;
      }
      w := winner;
    }

    /** gameOver(). */
    method GameOver() returns (over: bool)
      requires Valid()
      modifies this
      ensures Valid() && State() == WinnerOf(old(State())).1
      ensures over <==> WinnerOf(old(State())).0.Some?
    {
      var w := Winner();
      over := w.Some?;
    }

    /** Record side as the winner. */
    method Decide(side: Piece)
      modifies this
      ensures State() == Decided(old(State()), side)
    {
      winnerKnown := true;
      winner := Some(side);
    }

    /** Hand the move to the other side. */
    method PassTurn()
      modifies this
      ensures State() == old(State()).(turn := Opposite(old(turn)))
    {
      turn := Opposite(turn);
    }

    /** makeMove(move), for a legal move: flag a capture, record the move,
     *  move the piece, settle the winner, pass the turn. */
    method MakeMove(move: Move)
      requires Valid() && LegalMove(State(), move)
      modifies this, cells
      ensures Valid() && State() == Played(old(State()), move)
    {
      ghost var s := State();
      LegalIsMovable(s, move);
      var m := move;
      if cells[Index(m.to)] == Opposite(turn) {
        m := CaptureMove(m);
      }
      moves := moves + [m];
      Set(m.to, cells[Index(m.from)], None);
      Set(m.from, EMP, None);
      subsetsInitialized := false;
      ghost var s1 := Recorded(s, move);
      assert State() == s1;
      var mine := PiecesContiguous(turn);
      ghost var s2 := State();
      assert s2 == WithRegions(s1) && turn == s.turn;
      if mine {
        Decide(turn);
      } else {
        var theirs := PiecesContiguous(Opposite(turn));
        assert State() == s2;
        if theirs {
          Decide(Opposite(turn));
        }
      }
      assert State() == Settled(s2, s.turn);
      PassTurn();
    }

    /** retract(), corrected: put the last move's piece back, restore the
     *  captured piece or empty the destination, recompute the regions,
     *  pass the turn back and forget the winner. */
    method Retract()
      requires Valid() && MovesMade(State()) > 0
      modifies this, cells
      ensures Valid() && State() == Retracted(old(State()))
    {
      ghost var s := State();
      var m := moves[|moves| - 1];
      moves := moves[..|moves| - 1];
      Set(m.from, cells[Index(m.to)], None);
      if m.isCapture {
        Set(m.to, Opposite(cells[Index(m.from)]), None);
      } else {
        Set(m.to, EMP, None);
      }
      subsetsInitialized := false;
      assert State() == Unrecorded(s);
      ComputeRegions();
      ghost var s2 := State();
      PassTurn();
      if winnerKnown {
        winnerKnown := false;
        winner := None;
      }
      assert State() == s2.(turn := Opposite(s.turn), winnerKnown := false, winner := None);
    }
  }
}
