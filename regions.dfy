// Connected regions of one colour, the quantity behind Board.computeRegions,
// Board.getRegionSizes and Board.piecesContiguous: two pieces of a colour are
// in one region when a chain of king-step neighbours of that colour joins
// them.  This module gives the reference definitions that the flood fill in
// Board is proved against.

module Regions {
  import opened Pieces
  import opened Squares

  /** b is a neighbour of a and both hold p. */
  predicate Linked(cells: seq<Piece>, p: Piece, a: int, b: int) {
    |cells| == 64 && 0 <= a < 64 && 0 <= b < 64 && cells[a] == p && cells[b] == p
    && Touching(SquareAt(a), SquareAt(b))
  }

  lemma LinkedSymmetric(cells: seq<Piece>, p: Piece, a: int, b: int)
    ensures Linked(cells, p, a, b) <==> Linked(cells, p, b, a)
  {
  }

  /** S is closed under stepping to a neighbour of colour p. */
  ghost predicate Closed(cells: seq<Piece>, p: Piece, S: set<int>) {
    forall a, b {:trigger Linked(cells, p, a, b)} :: a in S && Linked(cells, p, a, b) ==> b in S
  }

  /** The board positions holding p. */
  ghost function PieceSet(cells: seq<Piece>, p: Piece): (S: set<int>)
    requires |cells| == 64
    ensures forall k {:trigger k in S} :: k in S <==> 0 <= k < 64 && cells[k] == p
  {
    set k | 0 <= k < 64 && cells[k] == p
  }

  /** Number of p pieces on the board. */
  ghost function PieceCount(cells: seq<Piece>, p: Piece): nat
    requires |cells| == 64
  {
    |PieceSet(cells, p)|
  }

  lemma SubsetCard(A: set<int>, B: set<int>)
    requires A <= B
    ensures |A| <= |B|
  {
    assert B == A + (B - A);
  }

  ghost function PiecesBelow(cells: seq<Piece>, p: Piece, n: int): set<int>
    requires |cells| == 64
  {
    set k | 0 <= k < n && k < 64 && cells[k] == p
  }

  lemma {:induction false} PiecesBelowCard(cells: seq<Piece>, p: Piece, n: nat)
    requires |cells| == 64
    ensures |PiecesBelow(cells, p, n)| <= n
  {
    if n > 0 {
      PiecesBelowCard(cells, p, n - 1);
      var A := PiecesBelow(cells, p, n - 1);
      assert PiecesBelow(cells, p, n) <= A + {n - 1};
      SubsetCard(PiecesBelow(cells, p, n), A + {n - 1});
    }
  }

  /** At most 64 pieces of a colour fit on the board. */
  lemma PieceCountBound(cells: seq<Piece>, p: Piece)
    requires |cells| == 64
    ensures PieceCount(cells, p) <= 64
  {
    PiecesBelowCard(cells, p, 64);
    assert PiecesBelow(cells, p, 64) == PieceSet(cells, p);
  }

  /** b is a p-neighbour of some member of S. */
  ghost predicate Reached(cells: seq<Piece>, p: Piece, S: set<int>, b: int) {
    exists a :: a in S && Linked(cells, p, a, b)
  }

  /** S together with every p-neighbour of a member of S. */
  ghost function Grow(cells: seq<Piece>, p: Piece, S: set<int>): set<int> {
    S + set b | 0 <= b < 64 && Reached(cells, p, S, b)
  }

  /** The least closed set of p positions containing S. */
  ghost function Closure(cells: seq<Piece>, p: Piece, S: set<int>): (C: set<int>)
    requires |cells| == 64 && S <= PieceSet(cells, p)
    ensures S <= C <= PieceSet(cells, p)
    ensures Closed(cells, p, C)
    decreases PieceSet(cells, p) - S
  {
    var G := Grow(cells, p, S);
    if G == S then
      S
    else
      var b :| b in G && b !in S;
      assert b in PieceSet(cells, p) - S && b !in PieceSet(cells, p) - G;
      Closure(cells, p, G)
  }

  /** Every closed set of p positions that contains S contains its closure. */
  lemma {:induction false} ClosureLeast(cells: seq<Piece>, p: Piece, S: set<int>, T: set<int>)
    requires |cells| == 64 && S <= PieceSet(cells, p)
    requires S <= T && Closed(cells, p, T)
    ensures Closure(cells, p, S) <= T
    decreases PieceSet(cells, p) - S
  {
    var G := Grow(cells, p, S);
    if G != S {
      assert G <= T;
      var b :| b in G && b !in S;
      assert b in PieceSet(cells, p) - S && b !in PieceSet(cells, p) - G;
      ClosureLeast(cells, p, G, T);
    }
  }

  /** C is the least closed set of p positions that contains r. */
  ghost predicate IsRegion(cells: seq<Piece>, p: Piece, r: int, C: set<int>)
    requires |cells| == 64
  {
    r in C && C <= PieceSet(cells, p) && Closed(cells, p, C)
    && forall T {:trigger Closed(cells, p, T)} :: r in T && Closed(cells, p, T) ==> C <= T
  }

  /** The closure of {r} is such a set. */
  lemma RegionExists(cells: seq<Piece>, p: Piece, r: int)
    requires |cells| == 64 && 0 <= r < 64 && cells[r] == p
    ensures IsRegion(cells, p, r, Closure(cells, p, {r}))
  {
    forall T | r in T && Closed(cells, p, T)
      ensures Closure(cells, p, {r}) <= T
    {
      ClosureLeast(cells, p, {r}, T);
    }
  }

  /** The region of the p piece at position r: every p piece joined to it by
   *  a chain of touching p pieces. */
  ghost function Component(cells: seq<Piece>, p: Piece, r: int): (C: set<int>)
    requires |cells| == 64 && 0 <= r < 64 && cells[r] == p
    ensures r in C && C <= PieceSet(cells, p) && Closed(cells, p, C)
  {
    RegionExists(cells, p, r);
    var C :| IsRegion(cells, p, r, C);
    C
  }

  /** A region is contained in every closed set that contains its root. */
  lemma ComponentLeast(cells: seq<Piece>, p: Piece, r: int, T: set<int>)
    requires |cells| == 64 && 0 <= r < 64 && cells[r] == p
    requires r in T && Closed(cells, p, T)
    ensures Component(cells, p, r) <= T
  {
    assert IsRegion(cells, p, r, Component(cells, p, r));
  }

  /** A region whose root lies outside a closed set misses that set entirely. */
  lemma ComponentDisjoint(cells: seq<Piece>, p: Piece, r: int, V: set<int>)
    requires |cells| == 64 && 0 <= r < 64 && cells[r] == p
    requires r !in V && Closed(cells, p, V)
    ensures Component(cells, p, r) !! V
  {
    var C := Component(cells, p, r);
    var D := C - V;
    forall a, b | a in D && Linked(cells, p, a, b)
      ensures b in D
    {
      LinkedSymmetric(cells, p, a, b);
    }
    ComponentLeast(cells, p, r, D);
  }

  /** Joined pieces have the same region. */
  lemma SameComponent(cells: seq<Piece>, p: Piece, r: int, a: int)
    requires |cells| == 64 && 0 <= r < 64 && cells[r] == p
    requires a in Component(cells, p, r)
    ensures Component(cells, p, a) == Component(cells, p, r)
  {
    ComponentLeast(cells, p, a, Component(cells, p, r));
    if r !in Component(cells, p, a) {
      ComponentDisjoint(cells, p, r, Component(cells, p, a));
      assert false;
    }
    ComponentLeast(cells, p, r, Component(cells, p, a));
  }

  function Sum(s: seq<int>): int {
    if s == [] then 0 else s[0] + Sum(s[1..])
  }

  lemma {:induction false} SumAppend(s: seq<int>, x: int)
    ensures Sum(s + [x]) == Sum(s) + x
  {
    if s != [] {
      assert (s + [x])[1..] == s[1..] + [x];
      SumAppend(s[1..], x);
    }
  }

  /** A list of positive sizes has a sum at least its length, and each
   *  element is at most the sum. */
  lemma {:induction false} SumPositive(s: seq<int>)
    requires forall i :: 0 <= i < |s| ==> s[i] >= 1
    ensures Sum(s) >= |s|
    ensures forall i :: 0 <= i < |s| ==> s[i] <= Sum(s)
  {
    if s != [] {
      SumPositive(s[1..]);
      assert forall i :: 1 <= i < |s| ==> s[i] == s[1..][i - 1];
    }
  }

  /** The sizes of the regions found by scanning positions 0 .. k-1, in the
   *  order found, with the set of positions they cover. */
  ghost function Discover(cells: seq<Piece>, p: Piece, k: int): (r: (seq<int>, set<int>))
    requires |cells| == 64 && 0 <= k <= 64
    ensures r.1 <= PieceSet(cells, p) && Closed(cells, p, r.1)
    decreases |cells| + k
  {
    if k == 0 then ([], {})
    else
      var prev := Discover(cells, p, k - 1);
      var root := k - 1;
      if cells[root] == p && root !in prev.1 then
        var C := Component(cells, p, root);
        ClosedUnion(cells, p, prev.1, C);
        (prev.0 + [|C|], prev.1 + C)
      else
        prev
  }

  lemma ClosedUnion(cells: seq<Piece>, p: Piece, A: set<int>, B: set<int>)
    requires Closed(cells, p, A) && Closed(cells, p, B)
    ensures Closed(cells, p, A + B)
  {
  }

  /** The scan covers every p position below k, finds only non-empty
   *  regions, and the sizes found add up to the number of positions covered. */
  lemma DiscoverFacts(cells: seq<Piece>, p: Piece, k: int)
    requires |cells| == 64 && 0 <= k <= 64
    ensures forall j {:trigger j in Discover(cells, p, k).1} :: 0 <= j < k && cells[j] == p ==> j in Discover(cells, p, k).1
    ensures forall i :: 0 <= i < |Discover(cells, p, k).0| ==> Discover(cells, p, k).0[i] >= 1
    ensures Sum(Discover(cells, p, k).0) == |Discover(cells, p, k).1|
  {
    DiscoverCovers(cells, p, k);
    DiscoverPositive(cells, p, k);
    DiscoverSum(cells, p, k);
  }

  lemma {:induction false} DiscoverCovers(cells: seq<Piece>, p: Piece, k: int)
    requires |cells| == 64 && 0 <= k <= 64
    ensures forall j {:trigger j in Discover(cells, p, k).1} :: 0 <= j < k && cells[j] == p ==> j in Discover(cells, p, k).1
  {
    if k > 0 {
      DiscoverCovers(cells, p, k - 1);
      var prev := Discover(cells, p, k - 1);
      assert prev.1 <= Discover(cells, p, k).1;
    }
  }

  lemma {:induction false} DiscoverPositive(cells: seq<Piece>, p: Piece, k: int)
    requires |cells| == 64 && 0 <= k <= 64
    ensures forall i :: 0 <= i < |Discover(cells, p, k).0| ==> Discover(cells, p, k).0[i] >= 1
  {
    if k > 0 {
      DiscoverPositive(cells, p, k - 1);
    }
  }

  lemma {:induction false} DiscoverSum(cells: seq<Piece>, p: Piece, k: int)
    requires |cells| == 64 && 0 <= k <= 64
    ensures Sum(Discover(cells, p, k).0) == |Discover(cells, p, k).1|
  {
    if k > 0 {
      DiscoverSum(cells, p, k - 1);
      var prev := Discover(cells, p, k - 1);
      var root := k - 1;
      if cells[root] == p && root !in prev.1 {
        var C := Component(cells, p, root);
        ComponentDisjoint(cells, p, root, prev.1);
        SumAppend(prev.0, |C|);
        assert Discover(cells, p, k) == (prev.0 + [|C|], prev.1 + C);
      }
    }
  }

  /** Non-increasing order, stated on neighbours so that the verifier
   *  unfolds it one step at a time; SortedPair gives the pairwise form. */
  predicate SortedDesc(s: seq<int>)
    decreases |s|
  {
    |s| < 2 || (s[0] >= s[1] && SortedDesc(s[1..]))
  }

  /** In a list sorted in non-increasing order, no element is below a later one. */
  lemma {:induction false} SortedPair(s: seq<int>, i: int, j: int)
    requires SortedDesc(s) && 0 <= i <= j < |s|
    ensures s[i] >= s[j]
    decreases |s|
  {
    if 0 < i {
      SortedPair(s[1..], i - 1, j - 1);
    } else if 0 < j {
      SortedPair(s[1..], 0, j - 1);
    }
  }

  /** Insertion of x into a list sorted in non-increasing order: the result
   *  is sorted, one longer, and headed by x or by the old head (InsertPerm:
   *  it holds x and the elements of s). */
  function Insert(x: int, s: seq<int>): (r: seq<int>)
    requires SortedDesc(s)
    ensures SortedDesc(r) && |r| == |s| + 1
    ensures r[0] == x || (s != [] && r[0] == s[0])
  {
    if s == [] || x >= s[0] then
      PrependSorted(x, s);
      [x] + s
    else
      var t := Insert(x, s[1..]);
      assert t[0] <= s[0] by {
        if |s| > 1 {
          assert s[1..][0] == s[1];
        }
      }
      PrependSorted(s[0], t);
      [s[0]] + t
  }

  lemma PrependSorted(h: int, t: seq<int>)
    requires SortedDesc(t) && (t == [] || t[0] <= h)
    ensures SortedDesc([h] + t)
  {
    assert ([h] + t)[1..] == t;
  }

  /** Insert adds exactly one occurrence of x. */
  lemma {:induction false} InsertPerm(x: int, s: seq<int>)
    requires SortedDesc(s)
    ensures multiset(Insert(x, s)) == multiset(s) + multiset{x}
  {
    if s != [] && x < s[0] {
      InsertPerm(x, s[1..]);
      assert s == [s[0]] + s[1..];
    }
  }

  lemma {:induction false} InsertSum(x: int, s: seq<int>)
    requires SortedDesc(s)
    ensures Sum(Insert(x, s)) == Sum(s) + x
  {
    if s != [] && x < s[0] {
      InsertSum(x, s[1..]);
      assert ([s[0]] + Insert(x, s[1..]))[1..] == Insert(x, s[1..]);
    }
  }

  /** The list sorted in non-increasing order (Collections.sort with
   *  reverseOrder); SortPerm: a rearrangement of s. */
  function SortDesc(s: seq<int>): (r: seq<int>)
    ensures SortedDesc(r) && |r| == |s|
  {
    if s == [] then [] else Insert(s[0], SortDesc(s[1..]))
  }

  /** SortDesc rearranges s. */
  lemma {:induction false} SortPerm(s: seq<int>)
    ensures multiset(SortDesc(s)) == multiset(s)
  {
    if s != [] {
      SortPerm(s[1..]);
      InsertPerm(s[0], SortDesc(s[1..]));
      assert s == [s[0]] + s[1..];
    }
  }

  lemma {:induction false} SortSum(s: seq<int>)
    ensures Sum(SortDesc(s)) == Sum(s)
  {
    if s != [] {
      SortSum(s[1..]);
      InsertSum(s[0], SortDesc(s[1..]));
    }
  }

  /** The region sizes of colour p, largest first: what computeRegions stores
   *  for that colour. Every size is positive, the sizes add up to the number
   *  of p pieces, and none exceeds 64. */
  ghost function RegionSizes(cells: seq<Piece>, p: Piece): (r: seq<int>)
    requires |cells| == 64
    ensures SortedDesc(r)
    ensures forall i :: 0 <= i < |r| ==> 1 <= r[i] <= PieceCount(cells, p) <= 64
    ensures Sum(r) == PieceCount(cells, p)
    ensures |r| >= 1 <==> PieceCount(cells, p) >= 1
  {
    var d := Discover(cells, p, 64);
    DiscoverFacts(cells, p, 64);
    assert d.1 == PieceSet(cells, p);
    var r := SortDesc(d.0);
    SortSum(d.0);
    SortPerm(d.0);
    PermPositive(r, d.0);
    SumPositive(r);
    PieceCountBound(cells, p);
    r
  }

  /** A rearrangement of a list of positive numbers is positive too. */
  lemma PermPositive(r: seq<int>, s: seq<int>)
    requires multiset(r) == multiset(s) && forall i :: 0 <= i < |s| ==> s[i] >= 1
    ensures forall i :: 0 <= i < |r| ==> r[i] >= 1
  {
    forall i | 0 <= i < |r| ensures r[i] >= 1 {
      assert r[i] in multiset(s);
      var j :| 0 <= j < |s| && s[j] == r[i];
    }
  }

  /** A lone piece is a single region. */
  lemma OnePieceOneRegion(cells: seq<Piece>, p: Piece)
    requires |cells| == 64 && PieceCount(cells, p) == 1
    ensures |RegionSizes(cells, p)| == 1
  {
    var r := RegionSizes(cells, p);
    SumPositive(r);
  }

  /** Every two members of S are joined by a chain of touching p pieces. */
  ghost predicate AllJoined(cells: seq<Piece>, p: Piece, S: set<int>)
    requires |cells| == 64 && S <= PieceSet(cells, p)
  {
    forall a, b {:trigger b in Component(cells, p, a)} :: a in S && b in S ==> b in Component(cells, p, a)
  }

  /** While at most one region has been found, the positions found so far are all joined. */
  lemma {:induction false} DiscoverOneRegion(cells: seq<Piece>, p: Piece, k: int)
    requires |cells| == 64 && 0 <= k <= 64 && |Discover(cells, p, k).0| <= 1
    ensures AllJoined(cells, p, Discover(cells, p, k).1)
  {
    if k > 0 {
      var prev := Discover(cells, p, k - 1);
      var root := k - 1;
      if cells[root] == p && root !in prev.1 {
        DiscoverFacts(cells, p, k - 1);
        assert |prev.0| == 0;
        assert |prev.1| == 0;
        var C := Component(cells, p, root);
        assert Discover(cells, p, k).1 == prev.1 + C;
        assert Discover(cells, p, k).1 == C;
        forall a, b | a in C && b in C
          ensures b in Component(cells, p, a)
        {
          SameComponent(cells, p, root, a);
        }
      } else {
        assert Discover(cells, p, k) == prev;
        DiscoverOneRegion(cells, p, k - 1);
      }
    }
  }

  /** When all p pieces are joined, the scan finds nothing or exactly all of them. */
  lemma {:induction false} DiscoverAllJoined(cells: seq<Piece>, p: Piece, k: int)
    requires |cells| == 64 && 0 <= k <= 64
    requires AllJoined(cells, p, PieceSet(cells, p))
    ensures var d := Discover(cells, p, k);
      (d.0 == [] && d.1 == {}) || (|d.0| == 1 && d.1 == PieceSet(cells, p))
  {
    if k > 0 {
      DiscoverAllJoined(cells, p, k - 1);
      var prev := Discover(cells, p, k - 1);
      var root := k - 1;
      if cells[root] == p && root !in prev.1 {
        var C := Component(cells, p, root);
        assert prev.1 == {};
        assert C == PieceSet(cells, p);
      }
    }
  }

  /** A colour has exactly one region iff it has a piece and every two of its
   *  pieces are joined by a chain of touching pieces of that colour. */
  lemma ContiguousIff(cells: seq<Piece>, p: Piece)
    requires |cells| == 64
    ensures |RegionSizes(cells, p)| == 1 <==> PieceSet(cells, p) != {} && AllJoined(cells, p, PieceSet(cells, p))
  {
    var d := Discover(cells, p, 64);
    DiscoverFacts(cells, p, 64);
    assert d.1 == PieceSet(cells, p);
    if |RegionSizes(cells, p)| == 1 {
      DiscoverOneRegion(cells, p, 64);
      assert PieceCount(cells, p) >= 1;
    }
    if PieceSet(cells, p) != {} && AllJoined(cells, p, PieceSet(cells, p)) {
      DiscoverAllJoined(cells, p, 64);
    }
  }
}
