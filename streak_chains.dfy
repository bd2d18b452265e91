// Chains of positions through the levels of a region: what a streak iterator points at.
// A chain names one entry per level such that each entry lies in the child range of the
// entry named one level up. Its level-0 entry fixes the whole chain, and chains taken in
// the order of their level-0 entries name their streaks in lexicographic order, the highest
// dimension being the most significant.

module StreakChains {
  import opened NewRegionLevels
  import opened RegionCells

  /** Positions its[0..n) name one entry per level, each inside the child range of the entry
      named one level up. */
  ghost predicate ChainUpTo(L: seq<seq<Pair>>, its: seq<int>, n: int)
  {
    |its| == |L| && 0 <= n <= |L| &&
    (forall k :: 0 <= k < n ==> 0 <= its[k] < |L[k]|) &&
    (forall k :: 0 < k < n ==> L[k][its[k]].second <= its[k - 1] < ChildEnd(L[k], its[k], |L[k - 1]|))
  }

  /** `its` names a streak of the region with levels `L`. */
  ghost predicate ChainOk(L: seq<seq<Pair>>, its: seq<int>)
  {
    |L| >= 1 && ChainUpTo(L, its, |L|)
  }

  /** The end position: every level at its end. */
  function Ends(L: seq<seq<Pair>>): (e: seq<int>)
    ensures |e| == |L| && forall k :: 0 <= k < |L| ==> e[k] == |L[k]|
  {
    seq(|L|, k requires 0 <= k < |L| => |L[k]|)
  }

  /** The coordinates, one per dimension, of the streak a chain names. */
  ghost function Origins(L: seq<seq<Pair>>, its: seq<int>): (o: seq<int>)
    requires ChainOk(L, its)
    ensures |o| == |L| && forall k :: 0 <= k < |L| ==> o[k] == L[k][its[k]].first
  {
    seq(|L|, k requires 0 <= k < |L| && ChainOk(L, its) => L[k][its[k]].first)
  }

  /** Lexicographic order on the first n coordinates, coordinate n - 1 the most significant. */
  ghost predicate LexLess(p: seq<int>, q: seq<int>, n: nat)
    requires n <= |p| && n <= |q|
  {
    n > 0 && (p[n - 1] < q[n - 1] || (p[n - 1] == q[n - 1] && LexLess(p, q, n - 1)))
  }

  /** A position of the level below lies in the child range of at most one entry. */
  lemma OwnerUnique(U: seq<Pair>, lowerLen: int, x: int, e1: int, e2: int)
    requires Partitions(U, lowerLen) && 0 <= e1 < |U| && 0 <= e2 < |U|
    requires U[e1].second <= x < ChildEnd(U, e1, lowerLen)
    requires U[e2].second <= x < ChildEnd(U, e2, lowerLen)
    ensures e1 == e2
  {
    ChildEndBounds(U, lowerLen, e1);
    ChildEndBounds(U, lowerLen, e2);
  }

  /** Owners keep the order of what they own: a later position below never has an earlier owner. */
  lemma OwnerMonotone(U: seq<Pair>, lowerLen: int, x: int, y: int, e1: int, e2: int)
    requires Partitions(U, lowerLen) && 0 <= e1 < |U| && 0 <= e2 < |U|
    requires U[e1].second <= x < ChildEnd(U, e1, lowerLen)
    requires U[e2].second <= y < ChildEnd(U, e2, lowerLen)
    requires x <= y
    ensures e1 <= e2
  {
    ChildEndBounds(U, lowerLen, e2);
  }

  /** A chain is fixed by its level-0 entry. */
  lemma ChainUnique(L: seq<seq<Pair>>, a: seq<int>, b: seq<int>)
    requires ChainOk(L, a) && ChainOk(L, b) && LevelsValid(L, |L| - 1)
    requires a[0] == b[0]
    ensures a == b
  {
    ChainPrefixSame(L, a, b, |L|);
  }

  lemma {:induction false} ChainPrefixSame(L: seq<seq<Pair>>, a: seq<int>, b: seq<int>, n: int)
    requires ChainOk(L, a) && ChainOk(L, b) && LevelsValid(L, |L| - 1)
    requires a[0] == b[0] && 1 <= n <= |L|
    ensures forall k :: 0 <= k < n ==> a[k] == b[k]
    decreases n
  {
    if n > 1 {
      ChainPrefixSame(L, a, b, n - 1);
      var k := n - 1;
      assert LevelOk(L, k);
      OwnerUnique(L[k], |L[k - 1]|, a[k - 1], a[k], b[k]);
    }
  }

  /** What holds of two chains whose level-0 entries are ordered, looking at levels 0..n-1: the
      entries at level n - 1 are ordered, and where they coincide the coordinates below already
      decide the order. */
  ghost predicate OrderedUpTo(L: seq<seq<Pair>>, a: seq<int>, b: seq<int>, n: int)
    requires ChainOk(L, a) && ChainOk(L, b) && 1 <= n <= |L|
  {
    a[n - 1] < b[n - 1] || (a[n - 1] == b[n - 1] && LexLess(Origins(L, a), Origins(L, b), n - 1))
  }

  /** Chains taken in the order of their level-0 entries name their streaks in lexicographic
      order: the order in which the streak iterator visits them. */
  lemma ChainOrder(L: seq<seq<Pair>>, a: seq<int>, b: seq<int>)
    requires ChainOk(L, a) && ChainOk(L, b) && LevelsValid(L, |L| - 1)
    requires SortedIn(L[|L| - 1], 0, |L[|L| - 1]|, |L| == 1)
    requires a[0] < b[0]
    ensures LexLess(Origins(L, a), Origins(L, b), |L|)
  {
    var top := |L| - 1;
    ChainOrderUpTo(L, a, b, |L|);
    if a[top] < b[top] {
      assert Before(L[top][a[top]], L[top][b[top]], top == 0);
      assert L[top][a[top]].first < L[top][b[top]].first;
    }
  }

  lemma {:induction false} ChainOrderUpTo(L: seq<seq<Pair>>, a: seq<int>, b: seq<int>, n: int)
    requires ChainOk(L, a) && ChainOk(L, b) && LevelsValid(L, |L| - 1)
    requires a[0] < b[0] && 1 <= n <= |L|
    ensures OrderedUpTo(L, a, b, n)
    decreases n
  {
    if n > 1 {
      ChainOrderUpTo(L, a, b, n - 1);
      ChainOrderStep(L, a, b, n - 1);
    }
  }

  /** One level up: ordered entries at level k - 1 have ordered owners at level k; owners that
      coincide hold both in one child range, where the level below is ordered. */
  lemma ChainOrderStep(L: seq<seq<Pair>>, a: seq<int>, b: seq<int>, k: int)
    requires ChainOk(L, a) && ChainOk(L, b) && LevelsValid(L, |L| - 1)
    requires 0 < k < |L| && OrderedUpTo(L, a, b, k)
    ensures OrderedUpTo(L, a, b, k + 1)
  {
    assert LevelOk(L, k);
    var oa, ob := Origins(L, a), Origins(L, b);
    if a[k - 1] == b[k - 1] {
      OwnerUnique(L[k], |L[k - 1]|, a[k - 1], a[k], b[k]);
      assert oa[k] == ob[k];
    } else {
      OwnerMonotone(L[k], |L[k - 1]|, a[k - 1], b[k - 1], a[k], b[k]);
      if a[k] == b[k] {
        assert SortedIn(L[k - 1], L[k][a[k]].second, ChildEnd(L[k], a[k], |L[k - 1]|), k == 1);
        assert Before(L[k - 1][a[k - 1]], L[k - 1][b[k - 1]], k - 1 == 0);
        assert oa[k - 1] < ob[k - 1];
        assert oa[k] == ob[k];
      }
    }
  }

  /** Every level of a region with a non-empty level 0 is non-empty. */
  lemma {:induction false} LevelsNonEmpty(L: seq<seq<Pair>>, n: int)
    requires 1 <= n <= |L| && LevelsValid(L, |L| - 1) && |L[0]| > 0
    ensures forall k :: 0 <= k < n ==> |L[k]| > 0
    decreases n
  {
    if n > 1 {
      LevelsNonEmpty(L, n - 1);
      assert LevelOk(L, n - 1);
    }
  }

  /** The first entry of every level forms a chain: where the iteration starts. */
  lemma FirstChain(L: seq<seq<Pair>>)
    requires |L| >= 1 && LevelsValid(L, |L| - 1) && |L[0]| > 0
    ensures ChainOk(L, seq(|L|, k => 0))
  {
    LevelsNonEmpty(L, |L|);
    var z := seq(|L|, k => 0);
    forall k | 0 < k < |L| ensures L[k][z[k]].second <= z[k - 1] < ChildEnd(L[k], z[k], |L[k - 1]|) {
      assert LevelOk(L, k);
      ChildEndBounds(L[k], |L[k - 1]|, 0);
    }
  }

  /** When the position below reaches the end of its owner's child range and is not at the end
      of its level, the next entry owns it. */
  lemma NextOwner(L: seq<seq<Pair>>, i: int, e: int)
    requires 0 < i < |L| && LevelsValid(L, |L| - 1) && 0 <= e < |L[i]|
    requires ChildEnd(L[i], e, |L[i - 1]|) < |L[i - 1]|
    ensures e + 1 < |L[i]|
    ensures L[i][e + 1].second == ChildEnd(L[i], e, |L[i - 1]|) < ChildEnd(L[i], e + 1, |L[i - 1]|)
  {
    assert LevelOk(L, i);
    ChildEndBounds(L[i], |L[i - 1]|, e + 1);
  }

  // ---------------------------------------------------------------------------
  // Chains and cells: the streaks an iterator visits cover exactly the region
  // ---------------------------------------------------------------------------

  /** Cell p lies in the level-0 run of entry c[0] and, in every dimension k in 1..d, has the
      coordinate of the entry c[k]. */
  ghost predicate OnChain(L: seq<seq<Pair>>, c: seq<int>, p: seq<int>, d: nat)
    requires d < |L| && d < |c| && forall k :: 0 <= k <= d ==> 0 <= c[k] < |L[k]|
  {
    |p| == d + 1 && L[0][c[0]].first <= p[0] < L[0][c[0]].second &&
    forall k :: 0 < k <= d ==> p[k] == L[k][c[k]].first
  }

  /** A stretch holds exactly the cells of its entries. */
  lemma {:induction false} StretchMembership(L: seq<seq<Pair>>, d: nat, a: int, b: int, p: seq<int>)
    requires d < |L| && 0 <= a <= b <= |L[d]|
    ensures p in StretchCells(L, d, a, b) <==> exists j :: a <= j < b && p in EntryCells(L, d, j)
    decreases b - a
  {
    if a < b {
      StretchMembership(L, d, a, b - 1, p);
      assert StretchCells(L, d, a, b) == StretchCells(L, d, a, b - 1) + EntryCells(L, d, b - 1);
      if p in EntryCells(L, d, b - 1) {
        assert a <= b - 1 < b && p in EntryCells(L, d, b - 1);
      }
      if p in StretchCells(L, d, a, b - 1) {
        var j :| a <= j < b - 1 && p in EntryCells(L, d, j);
        assert a <= j < b && p in EntryCells(L, d, j);
      }
      if exists j :: a <= j < b && p in EntryCells(L, d, j) {
        var j :| a <= j < b && p in EntryCells(L, d, j);
        if j < b - 1 {
          assert a <= j < b - 1 && p in EntryCells(L, d, j);
        }
      }
    }
  }

  /** The child range of an entry of a valid level d > 0 is a stretch of level d - 1. */
  lemma ChildRange(L: seq<seq<Pair>>, d: nat, j: int)
    requires 0 < d < |L| && LevelsValid(L, |L| - 1) && 0 <= j < |L[d]|
    ensures 0 <= L[d][j].second < ChildEnd(L[d], j, |L[d - 1]|) <= |L[d - 1]|
    ensures EntryCells(L, d, j) ==
      Lift(StretchCells(L, d - 1, L[d][j].second, ChildEnd(L[d], j, |L[d - 1]|)), L[d][j].first)
  {
    assert LevelOk(L, d);
    ChildEndBounds(L[d], |L[d - 1]|, j);
  }

  /** Every cell on a chain, up to level d, is a cell of the chain's entry on level d. */
  lemma {:induction false} OnChainInEntry(L: seq<seq<Pair>>, c: seq<int>, p: seq<int>, d: nat)
    requires ChainOk(L, c) && LevelsValid(L, |L| - 1) && d < |L|
    requires OnChain(L, c, p, d)
    ensures p in EntryCells(L, d, c[d])
  {
    if d == 0 {
      CellsMembership(L[0][c[0]], p[0]);
      PointsMembership(Cells(L[0][c[0]]), p);
    } else {
      var q := p[..d];
      OnChainInEntry(L, c, q, d - 1);
      ChildRange(L, d, c[d]);
      var a, b := L[d][c[d]].second, ChildEnd(L[d], c[d], |L[d - 1]|);
      StretchMembership(L, d - 1, a, b, q);
      LiftMembership(StretchCells(L, d - 1, a, b), L[d][c[d]].first, p);
    }
  }

  /** A cell of an entry on level d > 0, with its last coordinate dropped, is a cell of an entry
      in the child range, and its last coordinate is the entry's. */
  lemma ChildOwner(L: seq<seq<Pair>>, d: nat, j: int, p: seq<int>) returns (j': int)
    requires 0 < d < |L| && LevelsValid(L, |L| - 1) && 0 <= j < |L[d]|
    requires p in EntryCells(L, d, j)
    ensures L[d][j].second <= j' < ChildEnd(L[d], j, |L[d - 1]|) <= |L[d - 1]|
    ensures |p| >= 1 && p[|p| - 1] == L[d][j].first && p[..|p| - 1] in EntryCells(L, d - 1, j')
  {
    ChildRange(L, d, j);
    var a, b := L[d][j].second, ChildEnd(L[d], j, |L[d - 1]|);
    LiftMembership(StretchCells(L, d - 1, a, b), L[d][j].first, p);
    StretchMembership(L, d - 1, a, b, p[..|p| - 1]);
    j' :| a <= j' < b && p[..|p| - 1] in EntryCells(L, d - 1, j');
  }

  /** Every cell of an entry on level d lies on a chain from that entry down to level 0. */
  lemma {:induction false} EntryOnChain(L: seq<seq<Pair>>, d: nat, j: int, p: seq<int>) returns (c: seq<int>)
    requires |L| >= 1 && LevelsValid(L, |L| - 1) && d < |L| && 0 <= j < |L[d]|
    requires p in EntryCells(L, d, j)
    ensures |c| == d + 1 && c[d] == j && forall k :: 0 <= k <= d ==> 0 <= c[k] < |L[k]|
    ensures forall k :: 0 < k <= d ==> L[k][c[k]].second <= c[k - 1] < ChildEnd(L[k], c[k], |L[k - 1]|)
    ensures OnChain(L, c, p, d)
  {
    if d == 0 {
      PointsMembership(Cells(L[0][j]), p);
      CellsMembership(L[0][j], p[0]);
      c := [j];
    } else {
      var j' := ChildOwner(L, d, j, p);
      var q := p[..|p| - 1];
      var c' := EntryOnChain(L, d - 1, j', q);
      c := c' + [j];
      assert forall k :: 0 <= k < d ==> c[k] == c'[k];
      assert forall k :: 0 <= k < d ==> p[k] == q[k];
    }
  }

  /** The streak a chain names lies inside the region: iterating yields no cell outside it. */
  lemma ChainCells(L: seq<seq<Pair>>, c: seq<int>)
    requires ChainOk(L, c) && LevelsValid(L, |L| - 1)
    ensures StreakCells(Origins(L, c), L[0][c[0]].second, |L| - 1) <= RegionCellsOf(L)
  {
    var top := |L| - 1;
    forall p | p in StreakCells(Origins(L, c), L[0][c[0]].second, top) ensures p in RegionCellsOf(L) {
      StreakCellsMembership(Origins(L, c), L[0][c[0]].second, top, p);
      OnChainInEntry(L, c, p, top);
      StretchMembership(L, top, 0, |L[top]|, p);
    }
  }

  /** Every cell of the region lies in the streak of some chain: iterating misses no cell. */
  lemma CellsOnChain(L: seq<seq<Pair>>, p: seq<int>)
    requires |L| >= 1 && LevelsValid(L, |L| - 1) && p in RegionCellsOf(L)
    ensures exists c :: ChainOk(L, c) && p in StreakCells(Origins(L, c), L[0][c[0]].second, |L| - 1)
  {
    var top := |L| - 1;
    StretchMembership(L, top, 0, |L[top]|, p);
    var j :| 0 <= j < |L[top]| && p in EntryCells(L, top, j);
    var c := EntryOnChain(L, top, j, p);
    assert ChainOk(L, c);
    StreakCellsMembership(Origins(L, c), L[0][c[0]].second, top, p);
  }

  /** The region's cells are exactly the cells of the streaks its chains name. */
  lemma RegionIsItsStreaks(L: seq<seq<Pair>>, p: seq<int>)
    requires |L| >= 1 && LevelsValid(L, |L| - 1)
    ensures p in RegionCellsOf(L) <==>
      exists c :: ChainOk(L, c) && p in StreakCells(Origins(L, c), L[0][c[0]].second, |L| - 1)
  {
    if p in RegionCellsOf(L) {
      CellsOnChain(L, p);
    }
    if exists c :: ChainOk(L, c) && p in StreakCells(Origins(L, c), L[0][c[0]].second, |L| - 1) {
      var c :| ChainOk(L, c) && p in StreakCells(Origins(L, c), L[0][c[0]].second, |L| - 1);
      ChainCells(L, c);
    }
  }
}
