// The index levels of NewRegion as plain values: the (int, int) pairs, the
// invariants that tie one level to the next, the cells that level-0 runs
// cover, and the run arithmetic (touch/fuse for insertion, intersect/subtract
// for removal).

module NewRegionLevels {

  /** `std::pair<int, int>`: a run [first, second) on level 0, a (coordinate, offset) entry above. */
  datatype Pair = Pair(first: int, second: int)

  // ---------------------------------------------------------------------------
  // Cells covered by runs
  // ---------------------------------------------------------------------------

  /** The x-coordinates of the run [p.first, p.second). */
  ghost function Cells(p: Pair): set<int>
  {
    set x | p.first <= x < p.second && InRun(p, x)
  }

  predicate InRun(p: Pair, x: int)
  {
    p.first <= x < p.second
  }

  lemma CellsMembership(p: Pair, x: int)
    ensures x in Cells(p) <==> p.first <= x < p.second
  {
  }

  /** The cells of the runs v[a..b). */
  ghost function Covered(v: seq<Pair>, a: int, b: int): set<int>
    requires 0 <= a <= b <= |v|
    decreases b - a
  {
    if a == b then {} else Covered(v, a, b - 1) + Cells(v[b - 1])
  }

  lemma {:induction false} CoveredSplit(v: seq<Pair>, a: int, b: int, c: int)
    requires 0 <= a <= b <= c <= |v|
    ensures Covered(v, a, c) == Covered(v, a, b) + Covered(v, b, c)
    decreases c - b
  {
    if b < c {
      CoveredSplit(v, a, b, c - 1);
    }
  }

  /** The runs v[a..b) sit unchanged in `w` from index c on. */
  ghost predicate SameRuns(v: seq<Pair>, a: int, b: int, w: seq<Pair>, c: int)
    requires 0 <= a <= b <= |v| && 0 <= c && c + (b - a) <= |w|
  {
    forall j :: a <= j < b ==> w[c + (j - a)] == v[j]
  }

  /** Equal stretches cover equal cells, wherever they sit. */
  lemma {:induction false} CoveredSame(v: seq<Pair>, a: int, b: int, w: seq<Pair>, c: int, d: int)
    requires 0 <= a <= b <= |v| && 0 <= c && d == c + (b - a) <= |w|
    requires SameRuns(v, a, b, w, c)
    ensures Covered(w, c, d) == Covered(v, a, b)
    decreases b - a
  {
    if a < b {
      CoveredSame(v, a, b - 1, w, c, d - 1);
      assert w[d - 1] == v[b - 1];
    }
  }

  /** The cells of R + P are those of R and those of P. */
  lemma CoveredAppend(R: seq<Pair>, P: seq<Pair>)
    ensures Covered(R + P, 0, |R + P|) == Covered(R, 0, |R|) + Covered(P, 0, |P|)
  {
    var RP := R + P;
    forall j | 0 <= j < |R| ensures RP[0 + (j - 0)] == R[j] {
    }
    forall j | 0 <= j < |P| ensures RP[|R| + (j - 0)] == P[j] {
    }
    CoveredJoined(R, P, RP);
  }

  /** A sequence made of R followed by P covers the cells of R and those of P. */
  lemma CoveredJoined(R: seq<Pair>, P: seq<Pair>, RP: seq<Pair>)
    requires |RP| == |R| + |P|
    requires SameRuns(R, 0, |R|, RP, 0) && SameRuns(P, 0, |P|, RP, |R|)
    ensures Covered(RP, 0, |RP|) == Covered(R, 0, |R|) + Covered(P, 0, |P|)
  {
    CoveredSame(R, 0, |R|, RP, 0, |R|);
    CoveredSame(P, 0, |P|, RP, |R|, |RP|);
    CoveredSplit(RP, 0, |R|, |RP|);
  }

  /** A cell is covered exactly when some run of the stretch holds it. */
  lemma {:induction false} CoveredMembership(v: seq<Pair>, a: int, b: int, x: int)
    requires 0 <= a <= b <= |v|
    ensures x in Covered(v, a, b) <==> exists j :: a <= j < b && v[j].first <= x < v[j].second
    decreases b - a
  {
    if a < b {
      CoveredMembership(v, a, b - 1, x);
      CellsMembership(v[b - 1], x);
    }
  }

  // ---------------------------------------------------------------------------
  // Run arithmetic
  // ---------------------------------------------------------------------------

  /** `intersectOrTouch`: the closed intervals [a.first, a.second] and [b.first, b.second] meet. */
  predicate IntersectOrTouch(a: Pair, b: Pair)
  {
    (a.first <= b.first && b.first <= a.second) || (b.first <= a.first && a.first <= b.second)
  }

  /** `fuse`: the smallest run holding both. */
  function Fuse(a: Pair, b: Pair): Pair
  {
    Pair(if a.first <= b.first then a.first else b.first,
         if a.second >= b.second then a.second else b.second)
  }

  /** Fusing two touching or overlapping runs covers exactly the cells of both. */
  lemma FuseCells(a: Pair, b: Pair)
    requires a.first < a.second && b.first < b.second && IntersectOrTouch(a, b)
    ensures Cells(Fuse(a, b)) == Cells(a) + Cells(b)
  {
    forall x ensures x in Cells(Fuse(a, b)) <==> x in Cells(a) + Cells(b) {
      CellsMembership(Fuse(a, b), x);
      CellsMembership(a, x);
      CellsMembership(b, x);
    }
  }

  /** `intersect` of the remove helper: the runs share a cell (touching is not enough). */
  predicate Intersect(a: Pair, b: Pair)
  {
    (a.first <= b.first && b.first < a.second) || (b.first <= a.first && a.first < b.second)
  }

  /** Non-empty runs intersect exactly when they share a cell. */
  lemma IntersectCells(a: Pair, b: Pair)
    requires a.first < a.second && b.first < b.second
    ensures Intersect(a, b) <==> Cells(a) * Cells(b) != {}
  {
    if Intersect(a, b) {
      var x := if a.first <= b.first then b.first else a.first;
      CellsMembership(a, x);
      CellsMembership(b, x);
      assert x in Cells(a) * Cells(b);
    } else {
      forall x | x in Cells(a) ensures x !in Cells(b) {
        CellsMembership(a, x);
        CellsMembership(b, x);
      }
    }
  }

  /** `substract(base, minuend)`: the parts of `base` outside `minuend`, as 0, 1 or 2 runs. */
  function Substract(base: Pair, minuend: Pair): seq<Pair>
  {
    if !Intersect(base, minuend) then [base]
    else
      var s1, s2 := Pair(base.first, minuend.first), Pair(minuend.second, base.second);
      (if s1.second > s1.first then [s1] else []) + (if s2.second > s2.first then [s2] else [])
  }

  /** What `substract` promises about its shape: at most two non-empty, ordered, non-touching runs
      lying inside `base`, and `base` itself when the two do not intersect. */
  lemma SubstractShape(base: Pair, minuend: Pair)
    requires base.first < base.second && minuend.first < minuend.second
    ensures var r := Substract(base, minuend);
      |r| <= 2 && RunsNonEmpty(r) && SortedIn(r, 0, |r|, true) &&
      (forall j :: 0 <= j < |r| ==> base.first <= r[j].first && r[j].second <= base.second) &&
      (!Intersect(base, minuend) ==> r == [base])
  {
  }

  /** What `substract` promises about cells: the result covers exactly the cells of `base` that are
      not in `minuend`. */
  lemma SubstractCells(base: Pair, minuend: Pair)
    requires base.first < base.second && minuend.first < minuend.second
    ensures var r := Substract(base, minuend); Covered(r, 0, |r|) == Cells(base) - Cells(minuend)
  {
    var r := Substract(base, minuend);
    if !Intersect(base, minuend) {
      IntersectCells(base, minuend);
      assert Covered(r, 0, 1) == Covered(r, 0, 0) + Cells(base);
    } else {
      var s1, s2 := Pair(base.first, minuend.first), Pair(minuend.second, base.second);
      var p1: seq<Pair> := if s1.second > s1.first then [s1] else [];
      var p2: seq<Pair> := if s2.second > s2.first then [s2] else [];
      assert Covered(p1, 0, |p1|) == Cells(s1) by {
        if |p1| == 1 {
          assert Covered(p1, 0, 1) == Covered(p1, 0, 0) + Cells(s1);
        }
      }
      assert Covered(p2, 0, |p2|) == Cells(s2) by {
        if |p2| == 1 {
          assert Covered(p2, 0, 1) == Covered(p2, 0, 0) + Cells(s2);
        }
      }
      CoveredAppend(p1, p2);
      assert Cells(s1) + Cells(s2) == Cells(base) - Cells(minuend);
    }
  }

  /** Removing [3, 6) from the run [0, 10) leaves [0, 3) and [6, 10). */
  lemma SubstractSplits()
    ensures Substract(Pair(0, 10), Pair(3, 6)) == [Pair(0, 3), Pair(6, 10)]
  {
  }

  // ---------------------------------------------------------------------------
  // Level invariants
  // ---------------------------------------------------------------------------

  /** Every level-0 run holds at least one cell. */
  ghost predicate RunsNonEmpty(v: seq<Pair>)
  {
    forall i :: 0 <= i < |v| ==> v[i].first < v[i].second
  }

  /** Order between two entries of one child range: strictly increasing coordinates above level 0,
      and on level 0 (`runs`) a gap of at least one cell between consecutive runs. */
  predicate Before(a: Pair, b: Pair, runs: bool)
  {
    if runs then a.second < b.first else a.first < b.first
  }

  /** Entries [lo, hi) of `v` are pairwise ordered. */
  ghost predicate SortedIn(v: seq<Pair>, lo: int, hi: int, runs: bool)
  {
    0 <= lo <= hi <= |v| && forall a, b :: lo <= a < b < hi ==> Before(v[a], v[b], runs)
  }

  /** Entries [lo, hi) have non-decreasing `.first`, what `std::upper_bound` needs. */
  ghost predicate FirstsSorted(v: seq<Pair>, lo: int, hi: int)
  {
    0 <= lo <= hi <= |v| &&
    forall a, b {:trigger NotAfter(v[a], v[b])} :: lo <= a < b < hi ==> NotAfter(v[a], v[b])
  }

  /** The order `PairCompareFirst` compares by: the coordinate of `a` is at most that of `b`. */
  predicate NotAfter(a: Pair, b: Pair)
  {
    a.first <= b.first
  }

  lemma SortedFirsts(v: seq<Pair>, lo: int, hi: int, runs: bool)
    requires SortedIn(v, lo, hi, runs) && (runs ==> RunsNonEmpty(v))
    ensures FirstsSorted(v, lo, hi)
  {
    forall a, b | lo <= a < b < hi ensures NotAfter(v[a], v[b]) {
      assert Before(v[a], v[b], runs);
    }
  }

  /** What `std::upper_bound` on `.first` finds, stated as a linear scan: the first index in
      [lo, hi) whose coordinate exceeds c, or hi. */
  function FirstAbove(v: seq<Pair>, lo: int, hi: int, c: int): (i: int)
    requires 0 <= lo <= hi <= |v|
    ensures lo <= i <= hi && (i < hi ==> c < v[i].first)
    decreases hi - lo
  {
    if lo == hi || c < v[lo].first then lo else FirstAbove(v, lo + 1, hi, c)
  }

  /** An index with every coordinate before it at most c and every one from it on above c is
      the one the scan finds. */
  lemma {:induction false} FirstAboveIs(v: seq<Pair>, lo: int, hi: int, c: int, i: int)
    requires 0 <= lo <= i <= hi <= |v|
    requires forall k :: lo <= k < i ==> v[k].first <= c
    requires forall k :: i <= k < hi ==> c < v[k].first
    ensures FirstAbove(v, lo, hi, c) == i
    decreases hi - lo
  {
    if lo < i {
      FirstAboveIs(v, lo + 1, hi, c, i);
    }
  }

  /** One past the child range of entry j of `upper` in the level below of length `lowerLen`. */
  function ChildEnd(upper: seq<Pair>, j: int, lowerLen: int): int
    requires 0 <= j < |upper|
  {
    if j + 1 < |upper| then upper[j + 1].second else lowerLen
  }

  /** The offsets of `upper` split the level below into contiguous, non-empty child ranges that
      start at 0 and end at `lowerLen`. */
  ghost predicate Partitions(upper: seq<Pair>, lowerLen: int)
  {
    (|upper| == 0 ==> lowerLen == 0) &&
    (|upper| > 0 ==> upper[0].second == 0) &&
    (forall j :: 0 <= j < |upper| ==> 0 <= upper[j].second < lowerLen) &&
    (forall a, b :: 0 <= a < b < |upper| ==> upper[a].second < upper[b].second)
  }

  /** Within every child range of `upper`, the level below is ordered. */
  ghost predicate SortedWithinChildren(upper: seq<Pair>, lower: seq<Pair>, runs: bool)
  {
    forall j :: 0 <= j < |upper| ==> SortedIn(lower, upper[j].second, ChildEnd(upper, j, |lower|), runs)
  }

  /** Level k > 0 of `L` partitions level k - 1 and keeps each of its child ranges ordered. */
  ghost predicate LevelOk(L: seq<seq<Pair>>, k: int)
    requires 0 < k < |L|
  {
    Partitions(L[k], |L[k - 1]|) && SortedWithinChildren(L[k], L[k - 1], k == 1)
  }

  /** Levels 0..d of `L` are consistent with each other. */
  ghost predicate LevelsValid(L: seq<seq<Pair>>, d: nat)
    requires d < |L|
  {
    RunsNonEmpty(L[0]) && forall k :: 0 < k <= d ==> LevelOk(L, k)
  }

  /** Changing a level above d keeps levels 0..d valid. */
  lemma LevelsValidUpdate(L: seq<seq<Pair>>, d: nat, k: nat, v: seq<Pair>)
    requires d < k < |L| && LevelsValid(L, d)
    ensures LevelsValid(L[k := v], d)
  {
    var L' := L[k := v];
    forall j | 0 < j <= d ensures LevelOk(L', j) {
      assert LevelOk(L, j);
    }
  }

  /** Where a new entry at index i of level d would start its child range lies inside level d - 1. */
  lemma ChildStartInRange(L: seq<seq<Pair>>, d: nat, i: int)
    requires 0 < d < |L| && LevelsValid(L, d) && 0 <= i <= |L[d]|
    ensures 0 <= (if i != |L[d]| then L[d][i].second else |L[d - 1]|) <= |L[d - 1]|
  {
    assert LevelOk(L, d);
  }

  /** The child range of entry e of level d is a non-empty, ordered stretch of level d - 1. */
  lemma ChildRangeOrdered(L: seq<seq<Pair>>, d: nat, e: int)
    requires 0 < d < |L| && LevelsValid(L, d) && 0 <= e < |L[d]|
    ensures L[d][e].second < ChildEnd(L[d], e, |L[d - 1]|)
    ensures SortedIn(L[d - 1], L[d][e].second, ChildEnd(L[d], e, |L[d - 1]|), d - 1 == 0)
  {
    assert LevelOk(L, d);
    ChildEndBounds(L[d], |L[d - 1]|, e);
  }

  /** Levels 0..d are valid when levels 0..d - 1 are and level d fits on level d - 1. */
  lemma LevelsValidExtend(L: seq<seq<Pair>>, d: nat)
    requires 0 < d < |L| && LevelsValid(L, d - 1)
    requires Partitions(L[d], |L[d - 1]|) && SortedWithinChildren(L[d], L[d - 1], d == 1)
    ensures LevelsValid(L, d)
  {
    assert LevelOk(L, d);
  }

  // ---------------------------------------------------------------------------
  // Offsets and splices
  // ---------------------------------------------------------------------------

  /** `v` with every offset moved by `delta` (what `incRemainder` does to a stretch of entries). */
  function Shift(v: seq<Pair>, delta: int): (r: seq<Pair>)
    ensures |r| == |v|
  {
    seq(|v|, i requires 0 <= i < |v| => Pair(v[i].first, v[i].second + delta))
  }

  lemma ShiftZero(v: seq<Pair>)
    ensures Shift(v, 0) == v
  {
  }

  /** `n` is `o` with the stretch [lo, hi) replaced by hi - lo + r entries and every entry after it
      moved by `delta` (the net change of the level below). */
  ghost predicate Spliced(o: seq<Pair>, n: seq<Pair>, lo: int, hi: int, r: int, delta: int)
  {
    0 <= lo <= hi <= |o| && |n| == |o| + r && lo <= hi + r &&
    n[..lo] == o[..lo] && n[hi + r..] == Shift(o[hi..], delta)
  }

  /** Order inside a stretch before the splice carries over unchanged. */
  lemma SortedBeforeSplice(o: seq<Pair>, n: seq<Pair>, lo: int, hi: int, r: int, delta: int,
                           a: int, b: int, runs: bool)
    requires Spliced(o, n, lo, hi, r, delta) && SortedIn(o, a, b, runs) && b <= lo
    ensures SortedIn(n, a, b, runs)
  {
    forall x, y | a <= x < y < b ensures Before(n[x], n[y], runs) {
      assert n[x] == n[..lo][x] && n[y] == n[..lo][y];
      assert o[x] == o[..lo][x] && o[y] == o[..lo][y];
    }
  }

  /** Order inside a stretch after the splice carries over, moved by r (offsets by delta). */
  lemma SortedAfterSplice(o: seq<Pair>, n: seq<Pair>, lo: int, hi: int, r: int, delta: int,
                          a: int, b: int, runs: bool)
    requires Spliced(o, n, lo, hi, r, delta) && SortedIn(o, a, b, runs) && hi <= a
    requires runs ==> delta == 0
    ensures SortedIn(n, a + r, b + r, runs)
  {
    forall x, y | a + r <= x < y < b + r ensures Before(n[x], n[y], runs) {
      assert n[x] == n[hi + r..][x - hi - r] == Shift(o[hi..], delta)[x - hi - r];
      assert n[y] == n[hi + r..][y - hi - r] == Shift(o[hi..], delta)[y - hi - r];
      assert o[x - r] == o[hi..][x - r - hi] && o[y - r] == o[hi..][y - r - hi];
      assert Before(o[x - r], o[y - r], runs);
    }
  }

  // ---------------------------------------------------------------------------
  // The level above a splice
  // ---------------------------------------------------------------------------

  /** Offsets of a partitioning level increase with the index. */
  lemma OffsetsMonotone(U: seq<Pair>, lowerLen: int, a: int, b: int)
    requires Partitions(U, lowerLen) && 0 <= a <= b < |U|
    ensures U[a].second <= U[b].second
  {
  }

  /** Every child range of a partitioning level ends after it starts and no later than the level
      below does; it ends at or before the start of any later entry's range. */
  lemma ChildEndBounds(U: seq<Pair>, lowerLen: int, j: int)
    requires Partitions(U, lowerLen) && 0 <= j < |U|
    ensures U[j].second < ChildEnd(U, j, lowerLen) <= lowerLen
    ensures forall b :: j < b < |U| ==> ChildEnd(U, j, lowerLen) <= U[b].second
  {
  }

  /** `U'` is `U` with the offsets of the entries from index `at` on moved by r. */
  ghost predicate Moved(U: seq<Pair>, U': seq<Pair>, at: int, r: int)
  {
    0 <= at <= |U| && |U'| == |U| &&
    (forall j :: 0 <= j < at ==> U'[j] == U[j]) &&
    (forall j :: at <= j < |U| ==> U'[j] == Pair(U[j].first, U[j].second + r))
  }

  lemma MovedShape(U: seq<Pair>, at: int, r: int)
    requires 0 <= at <= |U|
    ensures Moved(U, U[..at] + Shift(U[at..], r), at, r)
  {
    var U' := U[..at] + Shift(U[at..], r);
    forall j | at <= j < |U| ensures U'[j] == Pair(U[j].first, U[j].second + r) {
      assert U'[j] == Shift(U[at..], r)[j - at];
    }
  }

  /** The child range of entry e became [lo, hi + r) and everything after it moved by r: moving
      the offsets of the later entries by r keeps the level above a partition of the level below. */
  lemma ReplacedPartitions(U: seq<Pair>, U': seq<Pair>, lowerLen: int, e: int, r: int)
    requires Partitions(U, lowerLen) && 0 <= e < |U| && Moved(U, U', e + 1, r)
    requires ChildEnd(U, e, lowerLen) + r > U[e].second
    ensures Partitions(U', lowerLen + r)
  {
    ChildEndBounds(U, lowerLen, e);
  }

  lemma ReplacedSorted(U: seq<Pair>, U': seq<Pair>, o: seq<Pair>, n: seq<Pair>, e: int, r: int, delta: int, runs: bool)
    requires Partitions(U, |o|) && SortedWithinChildren(U, o, runs) && 0 <= e < |U|
    requires Moved(U, U', e + 1, r)
    requires Spliced(o, n, U[e].second, ChildEnd(U, e, |o|), r, delta)
    requires SortedIn(n, U[e].second, ChildEnd(U, e, |o|) + r, runs)
    requires runs ==> delta == 0
    ensures SortedWithinChildren(U', n, runs)
  {
    var lo, hi := U[e].second, ChildEnd(U, e, |o|);
    forall j | 0 <= j < |U'| ensures SortedIn(n, U'[j].second, ChildEnd(U', j, |n|), runs) {
      if j < e {
        ChildEndBounds(U, |o|, j);
        assert ChildEnd(U', j, |n|) == ChildEnd(U, j, |o|);
        SortedBeforeSplice(o, n, lo, hi, r, delta, U[j].second, ChildEnd(U, j, |o|), runs);
      } else if j > e {
        ChildEndBounds(U, |o|, e);
        OffsetsMonotone(U, |o|, e + 1, j);
        assert U'[j].second == U[j].second + r;
        assert ChildEnd(U', j, |n|) == ChildEnd(U, j, |o|) + r;
        SortedAfterSplice(o, n, lo, hi, r, delta, U[j].second, ChildEnd(U, j, |o|), runs);
      } else {
        assert ChildEnd(U', j, |n|) == hi + r;
      }
    }
  }

  /** A new entry (c, nls) put at index i, whose child range [nls, nls + r) was created in the
      level below, keeps the level above a partition of the level below. */
  lemma AddedPartitions(U: seq<Pair>, U': seq<Pair>, lowerLen: int, i: int, c: int, r: int)
    requires Partitions(U, lowerLen) && 0 <= i <= |U| && r > 0
    requires U' == U[..i] + [Pair(c, if i < |U| then U[i].second else lowerLen)] + Shift(U[i..], r)
    ensures Partitions(U', lowerLen + r)
  {
    var nls := if i < |U| then U[i].second else lowerLen;
    var n := |U'|;
    assert n == |U| + 1;
    forall j | 0 <= j < n
      ensures U'[j].second == if j < i then U[j].second else if j == i then nls else U[j - 1].second + r
    {
      if j < i {
        assert U'[j] == U[..i][j];
      } else if j > i {
        assert U'[j] == Shift(U[i..], r)[j - i - 1];
      }
    }
    forall j | 0 <= j < i ensures U[j].second < nls {
      ChildEndBounds(U, lowerLen, j);
    }
    forall j | i <= j < |U| ensures nls <= U[j].second {
      OffsetsMonotone(U, lowerLen, i, j);
    }
    assert nls <= lowerLen;
  }

  lemma AddedSorted(U: seq<Pair>, U': seq<Pair>, o: seq<Pair>, n: seq<Pair>, i: int, c: int, r: int, delta: int, runs: bool)
    requires Partitions(U, |o|) && SortedWithinChildren(U, o, runs) && 0 <= i <= |U| && r > 0
    requires U' == U[..i] + [Pair(c, if i < |U| then U[i].second else |o|)] + Shift(U[i..], r)
    requires Spliced(o, n, if i < |U| then U[i].second else |o|, if i < |U| then U[i].second else |o|, r, delta)
    requires SortedIn(n, if i < |U| then U[i].second else |o|, (if i < |U| then U[i].second else |o|) + r, runs)
    requires runs ==> delta == 0
    ensures SortedWithinChildren(U', n, runs)
  {
    forall j | 0 <= j < |U'| ensures SortedIn(n, U'[j].second, ChildEnd(U', j, |n|), runs) {
      AddedSortedAt(U, o, n, i, c, r, delta, runs, j);
    }
  }

  /** Where the entries of the level above sit after entry (c, nls) was inserted at index i and
      the later offsets moved by r. */
  lemma AddedIndex(U: seq<Pair>, i: int, c: int, nls: int, r: int, j: int)
    requires 0 <= i <= |U| && 0 <= j <= |U|
    ensures var U' := U[..i] + [Pair(c, nls)] + Shift(U[i..], r);
      U'[j] == if j < i then U[j] else if j == i then Pair(c, nls) else Pair(U[j - 1].first, U[j - 1].second + r)
  {
    var U' := U[..i] + [Pair(c, nls)] + Shift(U[i..], r);
    if j > i {
      assert U'[j] == Shift(U[i..], r)[j - i - 1];
    }
  }

  /** One child range of `AddedSorted`, taken on its own. */
  lemma AddedSortedAt(U: seq<Pair>, o: seq<Pair>, n: seq<Pair>, i: int, c: int, r: int, delta: int, runs: bool, j: int)
    requires Partitions(U, |o|) && SortedWithinChildren(U, o, runs) && 0 <= i <= |U| && r > 0
    requires Spliced(o, n, if i < |U| then U[i].second else |o|, if i < |U| then U[i].second else |o|, r, delta)
    requires SortedIn(n, if i < |U| then U[i].second else |o|, (if i < |U| then U[i].second else |o|) + r, runs)
    requires runs ==> delta == 0
    requires 0 <= j <= |U|
    ensures var U' := U[..i] + [Pair(c, if i < |U| then U[i].second else |o|)] + Shift(U[i..], r);
      SortedIn(n, U'[j].second, ChildEnd(U', j, |n|), runs)
  {
    var nls := if i < |U| then U[i].second else |o|;
    if j < i {
      AddedSortedBefore(U, o, n, i, c, nls, r, delta, runs, j);
    } else if j == i {
      AddedIndex(U, i, c, nls, r, j);
      if j < |U| {
        AddedIndex(U, i, c, nls, r, j + 1);
      }
    } else {
      AddedSortedAfter(U, o, n, i, c, nls, r, delta, runs, j);
    }
  }

  /** A child range before the added entry is where it was; the last of them now ends at the
      added entry's offset, which is where it ended before. */
  lemma AddedSortedBefore(U: seq<Pair>, o: seq<Pair>, n: seq<Pair>, i: int, c: int, nls: int, r: int,
                          delta: int, runs: bool, j: int)
    requires Partitions(U, |o|) && SortedWithinChildren(U, o, runs) && 0 <= i <= |U| && r > 0
    requires nls == if i < |U| then U[i].second else |o|
    requires Spliced(o, n, nls, nls, r, delta)
    requires 0 <= j < i
    ensures var U' := U[..i] + [Pair(c, nls)] + Shift(U[i..], r);
      SortedIn(n, U'[j].second, ChildEnd(U', j, |n|), runs)
  {
    var U' := U[..i] + [Pair(c, nls)] + Shift(U[i..], r);
    AddedIndex(U, i, c, nls, r, j);
    AddedIndex(U, i, c, nls, r, j + 1);
    ChildEndBounds(U, |o|, j);
    assert ChildEnd(U', j, |n|) == ChildEnd(U, j, |o|) <= nls;
    SortedBeforeSplice(o, n, nls, nls, r, delta, U[j].second, ChildEnd(U, j, |o|), runs);
  }

  /** A child range after the added entry moved by r. */
  lemma AddedSortedAfter(U: seq<Pair>, o: seq<Pair>, n: seq<Pair>, i: int, c: int, nls: int, r: int,
                         delta: int, runs: bool, j: int)
    requires Partitions(U, |o|) && SortedWithinChildren(U, o, runs) && 0 <= i <= |U| && r > 0
    requires nls == if i < |U| then U[i].second else |o|
    requires Spliced(o, n, nls, nls, r, delta)
    requires runs ==> delta == 0
    requires i < j <= |U|
    ensures var U' := U[..i] + [Pair(c, nls)] + Shift(U[i..], r);
      SortedIn(n, U'[j].second, ChildEnd(U', j, |n|), runs)
  {
    var U' := U[..i] + [Pair(c, nls)] + Shift(U[i..], r);
    AddedIndex(U, i, c, nls, r, j);
    if j < |U| {
      AddedIndex(U, i, c, nls, r, j + 1);
    }
    ChildEndBounds(U, |o|, j - 1);
    OffsetsMonotone(U, |o|, i, j - 1);
    assert U'[j].second == U[j - 1].second + r;
    assert ChildEnd(U', j, |n|) == ChildEnd(U, j - 1, |o|) + r;
    SortedAfterSplice(o, n, nls, nls, r, delta, U[j - 1].second, ChildEnd(U, j - 1, |o|), runs);
  }

  /** The child range of entry e became empty: erasing the entry and moving the offsets of the
      later entries by r keeps the level above a partition of the level below. */
  lemma ErasedPartitions(U: seq<Pair>, U': seq<Pair>, lowerLen: int, e: int, r: int)
    requires Partitions(U, lowerLen) && 0 <= e < |U|
    requires U' == U[..e] + Shift(U[e + 1..], r)
    requires ChildEnd(U, e, lowerLen) + r == U[e].second
    ensures Partitions(U', lowerLen + r)
  {
    ChildEndBounds(U, lowerLen, e);
    assert |U'| == |U| - 1;
    assert forall j :: 0 <= j < e ==> U'[j] == U[j];
    forall j | e <= j < |U'| ensures U'[j] == Pair(U[j + 1].first, U[j + 1].second + r) {
      assert U'[j] == Shift(U[e + 1..], r)[j - e];
    }
    forall j | e < j < |U| ensures ChildEnd(U, e, lowerLen) <= U[j].second {
    }
  }

  lemma ErasedSorted(U: seq<Pair>, U': seq<Pair>, o: seq<Pair>, n: seq<Pair>, e: int, r: int, delta: int, runs: bool)
    requires Partitions(U, |o|) && SortedWithinChildren(U, o, runs) && 0 <= e < |U|
    requires U' == U[..e] + Shift(U[e + 1..], r)
    requires Spliced(o, n, U[e].second, ChildEnd(U, e, |o|), r, delta)
    requires ChildEnd(U, e, |o|) + r == U[e].second
    requires runs ==> delta == 0
    ensures SortedWithinChildren(U', n, runs)
  {
    forall j | 0 <= j < |U'| ensures SortedIn(n, U'[j].second, ChildEnd(U', j, |n|), runs) {
      ErasedSortedAt(U, o, n, e, r, delta, runs, j);
    }
  }

  /** Where the entries of the level above sit after entry e was erased and the later offsets
      moved by r. */
  lemma ErasedIndex(U: seq<Pair>, e: int, r: int, j: int)
    requires 0 <= e < |U| && 0 <= j < |U| - 1
    ensures var U' := U[..e] + Shift(U[e + 1..], r);
      |U'| == |U| - 1 && U'[j] == if j < e then U[j] else Pair(U[j + 1].first, U[j + 1].second + r)
  {
    var U' := U[..e] + Shift(U[e + 1..], r);
    if j >= e {
      assert U'[j] == Shift(U[e + 1..], r)[j - e];
    }
  }

  /** One child range of `ErasedSorted`, taken on its own. */
  lemma ErasedSortedAt(U: seq<Pair>, o: seq<Pair>, n: seq<Pair>, e: int, r: int, delta: int, runs: bool, j: int)
    requires Partitions(U, |o|) && SortedWithinChildren(U, o, runs) && 0 <= e < |U|
    requires Spliced(o, n, U[e].second, ChildEnd(U, e, |o|), r, delta)
    requires ChildEnd(U, e, |o|) + r == U[e].second
    requires runs ==> delta == 0
    requires 0 <= j < |U| - 1
    ensures var U' := U[..e] + Shift(U[e + 1..], r);
      SortedIn(n, U'[j].second, ChildEnd(U', j, |n|), runs)
  {
    if j < e {
      ErasedSortedBefore(U, o, n, e, r, delta, runs, j);
    } else {
      ErasedSortedAfter(U, o, n, e, r, delta, runs, j);
    }
  }

  /** A child range before the erased entry is where it was. */
  lemma ErasedSortedBefore(U: seq<Pair>, o: seq<Pair>, n: seq<Pair>, e: int, r: int, delta: int, runs: bool, j: int)
    requires Partitions(U, |o|) && SortedWithinChildren(U, o, runs) && 0 <= e < |U|
    requires Spliced(o, n, U[e].second, ChildEnd(U, e, |o|), r, delta)
    requires ChildEnd(U, e, |o|) + r == U[e].second
    requires runs ==> delta == 0
    requires 0 <= j < e
    ensures var U' := U[..e] + Shift(U[e + 1..], r);
      SortedIn(n, U'[j].second, ChildEnd(U', j, |n|), runs)
  {
    var U' := U[..e] + Shift(U[e + 1..], r);
    ChildEndBounds(U, |o|, e);
    ChildEndBounds(U, |o|, j);
    ErasedIndex(U, e, r, j);
    if j + 1 < |U| - 1 {
      ErasedIndex(U, e, r, j + 1);
    }
    assert ChildEnd(U', j, |n|) == ChildEnd(U, j, |o|);
    SortedBeforeSplice(o, n, U[e].second, ChildEnd(U, e, |o|), r, delta, U[j].second, ChildEnd(U, j, |o|), runs);
  }

  /** A child range after the erased entry moved by r. */
  lemma ErasedSortedAfter(U: seq<Pair>, o: seq<Pair>, n: seq<Pair>, e: int, r: int, delta: int, runs: bool, j: int)
    requires Partitions(U, |o|) && SortedWithinChildren(U, o, runs) && 0 <= e < |U|
    requires Spliced(o, n, U[e].second, ChildEnd(U, e, |o|), r, delta)
    requires ChildEnd(U, e, |o|) + r == U[e].second
    requires runs ==> delta == 0
    requires e <= j < |U| - 1
    ensures var U' := U[..e] + Shift(U[e + 1..], r);
      SortedIn(n, U'[j].second, ChildEnd(U', j, |n|), runs)
  {
    var U' := U[..e] + Shift(U[e + 1..], r);
    ChildEndBounds(U, |o|, e);
    ChildEndBounds(U, |o|, j + 1);
    OffsetsMonotone(U, |o|, e + 1, j + 1);
    ErasedIndex(U, e, r, j);
    if j + 1 < |U| - 1 {
      ErasedIndex(U, e, r, j + 1);
    }
    assert ChildEnd(U', j, |n|) == ChildEnd(U, j + 1, |o|) + r;
    SortedAfterSplice(o, n, U[e].second, ChildEnd(U, e, |o|), r, delta, U[j + 1].second, ChildEnd(U, j + 1, |o|), runs);
  }

  /** Levels 0..d after a change below the found entry e of level d: level d - 1 was spliced in
      the child range of e, which stays non-empty, and the later offsets of level d moved with it. */
  lemma ReplacedBelow(L: seq<seq<Pair>>, L': seq<seq<Pair>>, d: nat, e: int, r: int, delta: int)
    requires 0 < d < |L| && |L'| == |L| && LevelsValid(L, d) && LevelsValid(L', d - 1)
    requires 0 <= e < |L[d]| && (d == 1 ==> delta == 0)
    requires Spliced(L[d - 1], L'[d - 1], L[d][e].second, ChildEnd(L[d], e, |L[d - 1]|), r, delta)
    requires SortedIn(L'[d - 1], L[d][e].second, ChildEnd(L[d], e, |L[d - 1]|) + r, d == 1)
    requires ChildEnd(L[d], e, |L[d - 1]|) + r > L[d][e].second
    requires L'[d] == L[d][..e + 1] + Shift(L[d][e + 1..], r)
    ensures LevelsValid(L', d)
  {
    assert LevelOk(L, d);
    MovedShape(L[d], e + 1, r);
    ReplacedPartitions(L[d], L'[d], |L[d - 1]|, e, r);
    ReplacedSorted(L[d], L'[d], L[d - 1], L'[d - 1], e, r, delta, d == 1);
    LevelsValidExtend(L', d);
  }

  /** Levels 0..d after a new entry (c, nls) was put at index i of level d, with its child range
      [nls, nls + r) created in level d - 1. */
  lemma AddedBelow(L: seq<seq<Pair>>, L': seq<seq<Pair>>, d: nat, i: int, c: int, r: int, delta: int)
    requires 0 < d < |L| && |L'| == |L| && LevelsValid(L, d) && LevelsValid(L', d - 1)
    requires 0 <= i <= |L[d]| && r > 0 && (d == 1 ==> delta == 0)
    requires var nls := if i < |L[d]| then L[d][i].second else |L[d - 1]|;
      Spliced(L[d - 1], L'[d - 1], nls, nls, r, delta) && SortedIn(L'[d - 1], nls, nls + r, d == 1) &&
      L'[d] == L[d][..i] + [Pair(c, nls)] + Shift(L[d][i..], r)
    ensures LevelsValid(L', d)
  {
    assert LevelOk(L, d);
    AddedPartitions(L[d], L'[d], |L[d - 1]|, i, c, r);
    AddedSorted(L[d], L'[d], L[d - 1], L'[d - 1], i, c, r, delta, d == 1);
    LevelsValidExtend(L', d);
  }

  /** Levels 0..d after the child range of entry e of level d became empty and the entry was
      erased. */
  lemma ErasedBelow(L: seq<seq<Pair>>, L': seq<seq<Pair>>, d: nat, e: int, r: int, delta: int)
    requires 0 < d < |L| && |L'| == |L| && LevelsValid(L, d) && LevelsValid(L', d - 1)
    requires 0 <= e < |L[d]| && (d == 1 ==> delta == 0)
    requires Spliced(L[d - 1], L'[d - 1], L[d][e].second, ChildEnd(L[d], e, |L[d - 1]|), r, delta)
    requires ChildEnd(L[d], e, |L[d - 1]|) + r == L[d][e].second
    requires L'[d] == L[d][..e] + Shift(L[d][e + 1..], r)
    ensures LevelsValid(L', d)
  {
    assert LevelOk(L, d);
    ErasedPartitions(L[d], L'[d], |L[d - 1]|, e, r);
    ErasedSorted(L[d], L'[d], L[d - 1], L'[d - 1], e, r, delta, d == 1);
    LevelsValidExtend(L', d);
  }

  /** On level d > 0, moving the offsets from index a on (a inside [lo, hi]) is a splice that
      changes no entry count and keeps [lo, hi) ordered. */
  lemma FoundLevel(U: seq<Pair>, lo: int, hi: int, a: int, r: int)
    requires SortedIn(U, lo, hi, false) && lo <= a <= hi
    ensures var U' := U[..a] + Shift(U[a..|U|], r) + U[|U|..];
      U' == U[..a] + Shift(U[a..], r) && Spliced(U, U', lo, hi, 0, r) && SortedIn(U', lo, hi, false)
  {
    var U' := U[..a] + Shift(U[a..|U|], r) + U[|U|..];
    assert U[a..|U|] == U[a..] && U[|U|..] == [];
    assert U' == U[..a] + Shift(U[a..], r);
    assert U'[..lo] == U[..lo];
    assert U'[hi..] == Shift(U[hi..], r);
    forall x, y | lo <= x < y < hi ensures Before(U'[x], U'[y], false) {
      assert U'[x].first == U[x].first && U'[y].first == U[y].first;
    }
  }

  /** On level d > 0, putting the entry P at index i, between the smaller and the larger
      coordinates of [lo, hi), and then moving the offsets of the entries after it. */
  lemma AddedLevel(U: seq<Pair>, lo: int, hi: int, i: int, P: Pair, r: int)
    requires SortedIn(U, lo, hi, false) && lo <= i <= hi
    requires forall j :: lo <= j < i ==> U[j].first < P.first
    requires forall j :: i <= j < hi ==> P.first < U[j].first
    ensures var W := U[..i] + [P] + U[i..]; var U' := W[..i + 1] + Shift(W[i + 1..|W|], r) + W[|W|..];
      U' == U[..i] + [P] + Shift(U[i..], r) && Spliced(U, U', lo, hi, 1, r) && SortedIn(U', lo, hi + 1, false)
  {
    var W := U[..i] + [P] + U[i..];
    var U' := W[..i + 1] + Shift(W[i + 1..|W|], r) + W[|W|..];
    assert W[..i + 1] == U[..i] + [P] && W[i + 1..|W|] == U[i..] && W[|W|..] == [];
    assert U' == U[..i] + [P] + Shift(U[i..], r);
    assert U'[..lo] == U[..lo];
    assert U'[hi + 1..] == Shift(U[hi..], r);
    forall x, y | lo <= x < y < hi + 1 ensures Before(U'[x], U'[y], false) {
      if x < i {
        assert U'[x] == U[x];
      } else if x > i {
        assert U'[x].first == U[x - 1].first;
      }
      if y < i {
        assert U'[y] == U[y];
      } else if y > i {
        assert U'[y].first == U[y - 1].first;
      }
    }
  }

  /** On level d > 0, erasing entry e of [lo, hi) and moving the offsets of the entries after it. */
  lemma ErasedLevel(U: seq<Pair>, lo: int, hi: int, e: int, r: int)
    requires SortedIn(U, lo, hi, false) && lo <= e < hi
    ensures var W := U[..e] + U[e + 1..]; var U' := W[..e] + Shift(W[e..|W|], r) + W[|W|..];
      U' == U[..e] + Shift(U[e + 1..], r) && Spliced(U, U', lo, hi, -1, r) && SortedIn(U', lo, hi - 1, false)
  {
    var W := U[..e] + U[e + 1..];
    var U' := W[..e] + Shift(W[e..|W|], r) + W[|W|..];
    assert W[..e] == U[..e] && W[e..|W|] == U[e + 1..] && W[|W|..] == [];
    assert U' == U[..e] + Shift(U[e + 1..], r);
    assert U'[..lo] == U[..lo];
    assert U'[hi - 1..] == Shift(U[hi..], r);
    forall x, y | lo <= x < y < hi - 1 ensures Before(U'[x], U'[y], false) {
      if x < e {
        assert U'[x] == U[x];
      } else {
        assert U'[x].first == U[x + 1].first;
      }
      if y < e {
        assert U'[y] == U[y];
      } else {
        assert U'[y].first == U[y + 1].first;
      }
    }
  }

  /** How much level d - 1 grew from `L` to `L'` (nothing below level 0). */
  function Growth(L: seq<seq<Pair>>, L': seq<seq<Pair>>, d: nat): int
    requires d < |L| && d < |L'|
  {
    if d == 0 then 0 else |L'[d - 1]| - |L[d - 1]|
  }

  /** The found-coordinate case of an insertion at level d > 0: level d - 1 changed from `L` to
      `L1` inside the child range of entry e, then the offsets after e moved, giving `F`. */
  lemma FoundStep(L: seq<seq<Pair>>, L1: seq<seq<Pair>>, F: seq<seq<Pair>>, d: nat,
                  lo: int, hi: int, e: int, r: int)
    requires 0 < d < |L| == |L1| && LevelsValid(L, d) && SortedIn(L[d], lo, hi, false) && lo <= e < hi
    requires L1[d..] == L[d..] && LevelsValid(L1, d - 1)
    requires SortedIn(L1[d - 1], L[d][e].second, ChildEnd(L[d], e, |L[d - 1]|) + r, d - 1 == 0)
    requires Spliced(L[d - 1], L1[d - 1], L[d][e].second, ChildEnd(L[d], e, |L[d - 1]|), r, Growth(L, L1, d - 1))
    requires L[d][e].second < ChildEnd(L[d], e, |L[d - 1]|) + r
    requires F == L1[d := L1[d][..e + 1] + Shift(L1[d][e + 1..|L1[d]|], r) + L1[d][|L1[d]|..]]
    ensures |F| == |L| && F[d + 1..] == L[d + 1..]
    ensures LevelsValid(F, d) && SortedIn(F[d], lo, hi, false)
    ensures Spliced(L[d], F[d], lo, hi, 0, Growth(L, F, d))
    ensures F[..d] == L1[..d] && Growth(L, F, d) == r
    ensures F[d] == L[d][..e + 1] + Shift(L[d][e + 1..], r)
  {
    assert L1[d] == L[d] by {
      assert L1[d] == L1[d..][0] && L[d] == L[d..][0];
    }
    FoundLevel(L[d], lo, hi, e + 1, r);
    var Fd := L[d][..e + 1] + Shift(L[d][e + 1..], r);
    assert F == L1[d := Fd];
    LevelsValidUpdate(L1, d - 1, d, Fd);
    ReplacedBelow(L, F, d, e, r, Growth(L, L1, d - 1));
    assert F[d + 1..] == L1[d + 1..] == L[d + 1..] by {
      assert L1[d + 1..] == L1[d..][1..];
      assert L[d + 1..] == L[d..][1..];
    }
  }

  /** The missing-coordinate case of an insertion at level d > 0: the entry (c, nls) was put at
      index i of level d (giving `L1`), its child range was filled at nls in level d - 1 (giving
      `L2`), then the offsets after it moved, giving `F`. */
  lemma AddedStep(L: seq<seq<Pair>>, L1: seq<seq<Pair>>, L2: seq<seq<Pair>>, F: seq<seq<Pair>>, d: nat,
                  lo: int, hi: int, i: int, c: int, nls: int, r: int)
    requires 0 < d < |L| == |L2| && LevelsValid(L, d) && SortedIn(L[d], lo, hi, false) && lo <= i <= hi
    requires forall j :: lo <= j < i ==> L[d][j].first < c
    requires forall j :: i <= j < hi ==> c < L[d][j].first
    requires nls == (if i != |L[d]| then L[d][i].second else |L[d - 1]|)
    requires L1 == L[d := L[d][..i] + [Pair(c, nls)] + L[d][i..]]
    requires L2[d..] == L1[d..] && LevelsValid(L2, d - 1)
    requires SortedIn(L2[d - 1], nls, nls + r, d - 1 == 0)
    requires Spliced(L1[d - 1], L2[d - 1], nls, nls, r, Growth(L1, L2, d - 1)) && nls < nls + r
    requires F == L2[d := L2[d][..i + 1] + Shift(L2[d][i + 1..|L2[d]|], r) + L2[d][|L2[d]|..]]
    ensures |F| == |L| && F[d + 1..] == L[d + 1..]
    ensures LevelsValid(F, d) && SortedIn(F[d], lo, hi + 1, false)
    ensures Spliced(L[d], F[d], lo, hi, 1, Growth(L, F, d))
    ensures F[..d] == L2[..d] && Growth(L, F, d) == r
    ensures F[d] == L[d][..i] + [Pair(c, nls)] + Shift(L[d][i..], r)
  {
    LevelsValidUpdate(L2, d - 1, d, L2[d][..i + 1] + Shift(L2[d][i + 1..|L2[d]|], r) + L2[d][|L2[d]|..]);
    assert L2[d] == L2[d..][0] == L1[d];
    assert F[d] == L[d][..i] + [Pair(c, nls)] + Shift(L[d][i..], r) && Spliced(L[d], F[d], lo, hi, 1, r) &&
           SortedIn(F[d], lo, hi + 1, false) by {
      AddedLevel(L[d], lo, hi, i, Pair(c, nls), r);
    }
    assert Growth(L1, L2, d - 1) == Growth(L, L2, d - 1);
    AddedBelow(L, F, d, i, c, r, Growth(L, L2, d - 1));
    assert F[d + 1..] == L2[d + 1..] == L[d + 1..] by {
      assert L2[d + 1..] == L2[d..][1..];
      assert L1[d + 1..] == L1[d..][1..];
    }
  }

  /** The emptied-child case of a removal at level d > 0: the child range of entry e in level
      d - 1 became empty (giving `L1`), the entry was erased (giving `L2`), then the offsets of the
      entries after it moved, giving `F`. */
  lemma ErasedStep(L: seq<seq<Pair>>, L1: seq<seq<Pair>>, L2: seq<seq<Pair>>, F: seq<seq<Pair>>, d: nat,
                   lo: int, hi: int, e: int, r: int)
    requires 0 < d < |L| == |L1| && LevelsValid(L, d) && SortedIn(L[d], lo, hi, false) && lo <= e < hi
    requires L1[d..] == L[d..] && LevelsValid(L1, d - 1)
    requires Spliced(L[d - 1], L1[d - 1], L[d][e].second, ChildEnd(L[d], e, |L[d - 1]|), r, Growth(L, L1, d - 1))
    requires L[d][e].second - ChildEnd(L[d], e, |L[d - 1]|) == r
    requires L2 == L1[d := L1[d][..e] + L1[d][e + 1..]]
    requires F == L2[d := L2[d][..e] + Shift(L2[d][e..|L2[d]|], r) + L2[d][|L2[d]|..]]
    ensures |F| == |L| && F[d + 1..] == L[d + 1..]
    ensures LevelsValid(F, d) && SortedIn(F[d], lo, hi - 1, false)
    ensures Spliced(L[d], F[d], lo, hi, -1, Growth(L, F, d))
    ensures F[..d] == L1[..d] && Growth(L, F, d) == r
    ensures F[d] == L[d][..e] + Shift(L[d][e + 1..], r)
  {
    LevelsValidUpdate(L1, d - 1, d, L1[d][..e] + L1[d][e + 1..]);
    LevelsValidUpdate(L2, d - 1, d, L2[d][..e] + Shift(L2[d][e..|L2[d]|], r) + L2[d][|L2[d]|..]);
    assert L1[d] == L1[d..][0] == L[d];
    assert F[d] == L[d][..e] + Shift(L[d][e + 1..], r) && Spliced(L[d], F[d], lo, hi, -1, r) &&
           SortedIn(F[d], lo, hi - 1, false) by {
      ErasedLevel(L[d], lo, hi, e, r);
    }
    ErasedBelow(L, F, d, e, r, Growth(L, L1, d - 1));
    assert F[d + 1..] == L1[d + 1..] == L[d + 1..] by {
      assert L1[d + 1..] == L1[d..][1..];
      assert L[d + 1..] == L[d..][1..];
    }
  }

  // ---------------------------------------------------------------------------
  // Level-0 splices
  // ---------------------------------------------------------------------------

  /** State of the insertion loop: `cur` is the streak fused with the runs o[cursor..k), every run
      before `cursor` ends before `cur`, and `ub` is where `std::upper_bound` put the streak. */
  ghost predicate FuseState(o: seq<Pair>, lo: int, hi: int, ub: int, streak: Pair, cursor: int, k: int, cur: Pair)
  {
    RunsNonEmpty(o) && SortedIn(o, lo, hi, true) && lo <= ub <= hi &&
    (forall j :: lo <= j < ub ==> o[j].first <= streak.first) &&
    (forall j :: ub <= j < hi ==> streak.first < o[j].first) &&
    lo <= cursor <= k <= hi && ub - 1 <= k &&
    cur.first < cur.second && cur.first <= streak.first &&
    Cells(cur) == Cells(streak) + Covered(o, cursor, k) &&
    (cursor < k ==> cur.first <= o[cursor].first) &&
    (cursor == k ==> cur == streak) &&
    (forall j :: lo <= j < cursor ==> o[j].second < cur.first)
  }

  /** The loop starts on the last run at or before the streak's start (or at `lo`). */
  lemma FuseInit(o: seq<Pair>, lo: int, hi: int, ub: int, streak: Pair)
    requires RunsNonEmpty(o) && SortedIn(o, lo, hi, true) && lo <= ub <= hi
    requires forall j :: lo <= j < ub ==> o[j].first <= streak.first
    requires forall j :: ub <= j < hi ==> streak.first < o[j].first
    requires streak.first < streak.second
    ensures var c := if ub != lo then ub - 1 else lo;
      FuseState(o, lo, hi, ub, streak, c, c, streak)
  {
    var c := if ub != lo then ub - 1 else lo;
    forall j | lo <= j < c ensures o[j].second < streak.first {
      assert Before(o[j], o[c], true);
    }
  }

  /** Fusing the run at the cursor keeps the loop state. */
  lemma FuseStep(o: seq<Pair>, lo: int, hi: int, ub: int, streak: Pair, cursor: int, k: int, cur: Pair)
    requires FuseState(o, lo, hi, ub, streak, cursor, k, cur) && k < hi && IntersectOrTouch(o[k], cur)
    ensures FuseState(o, lo, hi, ub, streak, cursor, k + 1, Fuse(o[k], cur))
  {
    FuseCells(o[k], cur);
    forall j | lo <= j < cursor ensures o[j].second < Fuse(o[k], cur).first {
      assert Before(o[j], o[k], true);
    }
  }

  /** Stepping over a run that lies wholly before the streak keeps the loop state. */
  lemma AdvanceStep(o: seq<Pair>, lo: int, hi: int, ub: int, streak: Pair, cursor: int, k: int, cur: Pair)
    requires FuseState(o, lo, hi, ub, streak, cursor, k, cur) && k < hi
    requires !IntersectOrTouch(o[k], cur) && o[k].first < cur.first
    ensures cursor == k && FuseState(o, lo, hi, ub, streak, cursor + 1, k + 1, cur)
  {
  }

  /** Wherever the loop stops, the run after the swallowed ones lies strictly beyond `cur`. */
  lemma FuseExit(o: seq<Pair>, lo: int, hi: int, ub: int, streak: Pair, cursor: int, k: int, cur: Pair)
    requires FuseState(o, lo, hi, ub, streak, cursor, k, cur) && k < hi && !IntersectOrTouch(o[k], cur)
    requires cursor < k || ub <= k || cur.first <= o[k].first
    ensures cur.second < o[k].first
  {
    if cursor < k {
      assert Before(o[cursor], o[k], true);
    }
  }

  /** Putting the fused run `cur` in place of o[cursor..k), where `cur` lies strictly between its
      neighbours, keeps level 0 consistent. */
  lemma InsertRunSplice(o: seq<Pair>, lo: int, hi: int, cursor: int, k: int, cur: Pair)
    requires RunsNonEmpty(o) && SortedIn(o, lo, hi, true) && lo <= cursor <= k <= hi
    requires cur.first < cur.second
    requires forall j :: lo <= j < cursor ==> o[j].second < cur.first
    requires k == hi || cur.second < o[k].first
    ensures var n := o[..cursor] + [cur] + o[k..];
      RunsNonEmpty(n) && Spliced(o, n, lo, hi, 1 - (k - cursor), 0) &&
      SortedIn(n, lo, hi + 1 - (k - cursor), true)
  {
    var n := o[..cursor] + [cur] + o[k..];
    var top := hi + 1 - (k - cursor);
    assert n[..cursor] == o[..cursor] && n[cursor + 1..] == o[k..];
    assert n[..lo] == o[..lo];
    assert n[top..] == o[hi..];
    ShiftZero(o[hi..]);
    forall j | 0 <= j < |n| ensures n[j].first < n[j].second {
      InsertRunIndex(o, cursor, k, cur, j);
    }
    forall a, b | lo <= a < b < top ensures Before(n[a], n[b], true) {
      InsertRunIndex(o, cursor, k, cur, a);
      InsertRunIndex(o, cursor, k, cur, b);
      if a == cursor {
        assert cur.second < o[k].first <= o[b + k - cursor - 1].first;
      }
    }
  }

  /** Entry j of a level after the runs [cursor, k) were replaced by `cur`. */
  lemma InsertRunIndex(o: seq<Pair>, cursor: int, k: int, cur: Pair, j: int)
    requires 0 <= cursor <= k <= |o| && 0 <= j <= |o| - (k - cursor)
    ensures var n := o[..cursor] + [cur] + o[k..];
      n[j] == if j < cursor then o[j] else if j == cursor then cur else o[j + k - cursor - 1]
  {
  }

  /** The cells after an insertion: the fused run covers the streak and the swallowed runs. */
  lemma InsertRunCells(o: seq<Pair>, lo: int, hi: int, cursor: int, k: int, cur: Pair, streak: Pair)
    requires 0 <= lo <= cursor <= k <= hi <= |o|
    requires Cells(cur) == Cells(streak) + Covered(o, cursor, k)
    ensures var n := o[..cursor] + [cur] + o[k..];
      Covered(n, lo, hi + 1 - (k - cursor)) == Covered(o, lo, hi) + Cells(streak)
  {
    var n := o[..cursor] + [cur] + o[k..];
    NewCoveredParts(o, lo, hi, cursor, k, cur);
    CoveredSplit(o, lo, cursor, hi);
    CoveredSplit(o, cursor, k, hi);
    UnionRegroup(Covered(n, lo, hi + 1 - (k - cursor)), Covered(o, lo, cursor), Cells(cur), Covered(o, k, hi),
                 Cells(streak), Covered(o, cursor, k), Covered(o, lo, hi), Covered(o, cursor, hi));
  }

  /** The runs after an insertion cover the runs before the cursor, the new run and the runs from k on. */
  lemma NewCoveredParts(o: seq<Pair>, lo: int, hi: int, cursor: int, k: int, cur: Pair)
    requires 0 <= lo <= cursor <= k <= hi <= |o|
    ensures var n := o[..cursor] + [cur] + o[k..];
      Covered(n, lo, hi + 1 - (k - cursor)) == Covered(o, lo, cursor) + (Cells(cur) + Covered(o, k, hi))
  {
    var n := o[..cursor] + [cur] + o[k..];
    InsertedRunsSame(o, lo, hi, cursor, k, cur);
    CoveredSpliced(o, n, lo, hi, cursor, k, cur);
  }

  /** The cells of v[a..c) split around the run v[b]. */
  lemma CoveredAt(v: seq<Pair>, a: int, b: int, c: int)
    requires 0 <= a <= b < c <= |v|
    ensures Covered(v, a, c) == Covered(v, a, b) + (Cells(v[b]) + Covered(v, b + 1, c))
  {
    CoveredSplit(v, a, b, c);
    CoveredSplit(v, b, b + 1, c);
    assert Covered(v, b, b + 1) == Cells(v[b]);
  }

  /** `n` holds o[lo..cursor) in place, then `cur`, then o[k..hi): it covers their cells. */
  lemma CoveredSpliced(o: seq<Pair>, n: seq<Pair>, lo: int, hi: int, cursor: int, k: int, cur: Pair)
    requires 0 <= lo <= cursor <= k <= hi <= |o| && hi + 1 - (k - cursor) <= |n|
    requires SameRuns(o, lo, cursor, n, lo) && n[cursor] == cur && SameRuns(o, k, hi, n, cursor + 1)
    ensures Covered(n, lo, hi + 1 - (k - cursor)) == Covered(o, lo, cursor) + (Cells(cur) + Covered(o, k, hi))
  {
    CoveredSame(o, lo, cursor, n, lo, cursor);
    CoveredSame(o, k, hi, n, cursor + 1, hi + 1 - (k - cursor));
    CoveredAt(n, lo, cursor, hi + 1 - (k - cursor));
  }

  /** After an insertion the runs before the cursor and those from k on sit unchanged around `cur`. */
  lemma InsertedRunsSame(o: seq<Pair>, lo: int, hi: int, cursor: int, k: int, cur: Pair)
    requires 0 <= lo <= cursor <= k <= hi <= |o|
    ensures var n := o[..cursor] + [cur] + o[k..];
      hi + 1 - (k - cursor) <= |n| && n[cursor] == cur &&
      SameRuns(o, lo, cursor, n, lo) && SameRuns(o, k, hi, n, cursor + 1)
  {
    var n := o[..cursor] + [cur] + o[k..];
    forall j | lo <= j < cursor ensures n[lo + (j - lo)] == o[j] {
      InsertRunIndex(o, cursor, k, cur, j);
    }
    forall j | k <= j < hi ensures n[cursor + 1 + (j - k)] == o[j] {
      InsertRunIndex(o, cursor, k, cur, cursor + 1 + (j - k));
    }
    InsertRunIndex(o, cursor, k, cur, cursor);
  }

  /** Set algebra of an insertion: N = A + (F + D), F = S + B, O = A + M, M = B + D give N = O + S. */
  lemma UnionRegroup(N: set<int>, A: set<int>, F: set<int>, D: set<int>, S: set<int>, B: set<int>,
                     O: set<int>, M: set<int>)
    requires N == A + (F + D) && F == S + B && O == A + M && M == B + D
    ensures N == O + S
  {
  }

  /** State of the removal loop: the runs o[lo..k) have been replaced by `R`, which covers their
      cells minus those of `cut`, is ordered, and ends before every run still to be visited. */
  ghost predicate RemovedUpTo(o: seq<Pair>, lo: int, hi: int, k: int, R: seq<Pair>, cut: Pair)
  {
    0 <= lo <= k <= hi <= |o| && RunsNonEmpty(R) && SortedIn(R, 0, |R|, true) &&
    (forall a, b :: 0 <= a < |R| && k <= b < hi ==> R[a].second < o[b].first) &&
    Covered(R, 0, |R|) == Covered(o, lo, k) - Cells(cut)
  }

  /** Runs that end before `cut` starts are kept whole. */
  lemma RemoveStart(o: seq<Pair>, lo: int, hi: int, c0: int, cut: Pair)
    requires RunsNonEmpty(o) && SortedIn(o, lo, hi, true) && lo <= c0 <= hi
    requires forall j :: lo <= j < c0 ==> o[j].second <= cut.first
    ensures RemovedUpTo(o, lo, hi, c0, o[lo..c0], cut)
  {
    CoveredSame(o, lo, c0, o[lo..c0], 0, c0 - lo);
    forall x | x in Covered(o, lo, c0) ensures x !in Cells(cut) {
      CoveredMembership(o, lo, c0, x);
      CellsMembership(cut, x);
    }
  }

  /** Taking the same cells out of two sets and joining them is taking them out of the join. */
  lemma DiffUnion(A: set<int>, B: set<int>, C: set<int>)
    ensures (A - C) + (B - C) == (A + B) - C
  {
  }

  /** Taking out cells that one part does not have: if N = N1 + N2 with N1 = A - C, N2 = B and
      O = A + B, where B shares nothing with C, then N = O - C. */
  lemma DiffDisjoint(N: set<int>, N1: set<int>, N2: set<int>, A: set<int>, B: set<int>, C: set<int>, O: set<int>)
    requires N == N1 + N2 && N1 == A - C && N2 == B && O == A + B && B * C == {}
    ensures N == O - C
  {
    forall x | x in B ensures x !in C {
      assert x !in B * C;
    }
  }

  /** One turn of the removal loop: run o[k] is replaced by what is left of it outside `cut`. */
  lemma RemoveStep(o: seq<Pair>, lo: int, hi: int, k: int, R: seq<Pair>, cut: Pair)
    requires RunsNonEmpty(o) && SortedIn(o, lo, hi, true) && k < hi && cut.first < cut.second
    requires RemovedUpTo(o, lo, hi, k, R, cut)
    ensures RemovedUpTo(o, lo, hi, k + 1, R + Substract(o[k], cut), cut)
  {
    var P := Substract(o[k], cut);
    SubstractShape(o[k], cut);
    SubstractCells(o[k], cut);
    RemoveStepOrder(o, lo, hi, k, R, P);
    CoveredAppend(R, P);
    DiffUnion(Covered(o, lo, k), Cells(o[k]), Cells(cut));
  }

  /** The part of run o[k] appended to R keeps R ordered and ahead of the unvisited runs. */
  lemma RemoveStepOrder(o: seq<Pair>, lo: int, hi: int, k: int, R: seq<Pair>, P: seq<Pair>)
    requires RunsNonEmpty(o) && SortedIn(o, lo, hi, true) && 0 <= lo <= k < hi <= |o|
    requires RunsNonEmpty(R) && SortedIn(R, 0, |R|, true)
    requires forall a, b :: 0 <= a < |R| && k <= b < hi ==> R[a].second < o[b].first
    requires RunsNonEmpty(P) && SortedIn(P, 0, |P|, true)
    requires forall j :: 0 <= j < |P| ==> o[k].first <= P[j].first && P[j].second <= o[k].second
    ensures var R' := R + P;
      RunsNonEmpty(R') && SortedIn(R', 0, |R'|, true) &&
      (forall a, b :: 0 <= a < |R'| && k + 1 <= b < hi ==> R'[a].second < o[b].first)
  {
    var R' := R + P;
    assert forall a :: 0 <= a < |R| ==> R'[a] == R[a];
    assert forall a :: 0 <= a < |P| ==> R'[|R| + a] == P[a];
    forall a, b | 0 <= a < b < |R'| ensures Before(R'[a], R'[b], true) {
      if b >= |R| && a < |R| {
        assert R[a].second < o[k].first;
      }
    }
    forall a, b | 0 <= a < |R'| && k + 1 <= b < hi ensures R'[a].second < o[b].first {
      assert Before(o[k], o[b], true);
    }
  }

  /** When the loop stops, `R` followed by the unvisited runs is the new stretch, and level 0
      stays consistent. */
  lemma RemoveRunSplice(o: seq<Pair>, lo: int, hi: int, k: int, R: seq<Pair>)
    requires RunsNonEmpty(o) && SortedIn(o, lo, hi, true) && 0 <= lo <= k <= hi <= |o|
    requires RunsNonEmpty(R) && SortedIn(R, 0, |R|, true)
    requires forall a, b :: 0 <= a < |R| && k <= b < hi ==> R[a].second < o[b].first
    ensures var n := o[..lo] + R + o[k..];
      RunsNonEmpty(n) && Spliced(o, n, lo, hi, |R| - (k - lo), 0) &&
      SortedIn(n, lo, hi + |R| - (k - lo), true)
  {
    var n := o[..lo] + R + o[k..];
    var top := hi + |R| - (k - lo);
    assert Spliced(o, n, lo, hi, |R| - (k - lo), 0) by {
      assert n[top..] == o[hi..];
      ShiftZero(o[hi..]);
      assert n[..lo] == o[..lo];
    }
    forall j | 0 <= j < |n| ensures n[j].first < n[j].second {
      if j < lo {
        assert n[j] == o[j];
      } else if j < lo + |R| {
        assert n[j] == R[j - lo];
      } else {
        assert n[j] == o[j - lo - |R| + k];
      }
    }
    forall a, b | lo <= a < b < top ensures Before(n[a], n[b], true) {
      if b < lo + |R| {
        assert n[a] == R[a - lo] && n[b] == R[b - lo];
        assert Before(R[a - lo], R[b - lo], true);
      } else if a < lo + |R| {
        assert n[a] == R[a - lo] && n[b] == o[b - lo - |R| + k];
        assert R[a - lo].second < o[b - lo - |R| + k].first;
      } else {
        assert n[a] == o[a - lo - |R| + k] && n[b] == o[b - lo - |R| + k];
        assert Before(o[a - lo - |R| + k], o[b - lo - |R| + k], true);
      }
    }
  }

  /** Where the runs of the stretch sit after the removal loop replaced runs lo..k by R. */
  lemma RemoveRunIndex(o: seq<Pair>, lo: int, k: int, R: seq<Pair>, j: int)
    requires 0 <= lo <= k <= |o| && 0 <= j < |o| + |R| - (k - lo)
    ensures var n := o[..lo] + R + o[k..];
      n[j] == if j < lo then o[j] else if j < lo + |R| then R[j - lo] else o[j - lo - |R| + k]
  {
  }

  /** When the loop stops, the unvisited runs lie beyond `cut`, so the stretch covers the old cells
      minus those of `cut`. */
  lemma RemoveRunCells(o: seq<Pair>, lo: int, hi: int, k: int, R: seq<Pair>, cut: Pair)
    requires 0 <= lo <= k <= hi <= |o|
    requires Covered(R, 0, |R|) == Covered(o, lo, k) - Cells(cut)
    requires Covered(o, k, hi) * Cells(cut) == {}
    ensures var n := o[..lo] + R + o[k..];
      Covered(n, lo, hi + |R| - (k - lo)) == Covered(o, lo, hi) - Cells(cut)
  {
    var n := o[..lo] + R + o[k..];
    var top := hi + |R| - (k - lo);
    forall j | 0 <= j < |R| ensures n[lo + (j - 0)] == R[j] {
      RemoveRunIndex(o, lo, k, R, lo + j);
    }
    forall j | k <= j < hi ensures n[lo + |R| + (j - k)] == o[j] {
      RemoveRunIndex(o, lo, k, R, lo + |R| + (j - k));
    }
    CoveredReplaced(o, n, lo, hi, k, R, cut);
  }

  /** `n` holds R from index lo on and then o[k..hi): if R covers the cells of o[lo..k) but those
      of `cut`, and o[k..hi) avoids `cut`, the stretch covers the cells of o[lo..hi) but those of `cut`. */
  lemma CoveredReplaced(o: seq<Pair>, n: seq<Pair>, lo: int, hi: int, k: int, R: seq<Pair>, cut: Pair)
    requires 0 <= lo <= k <= hi <= |o| && hi + |R| - (k - lo) <= |n|
    requires SameRuns(R, 0, |R|, n, lo) && SameRuns(o, k, hi, n, lo + |R|)
    requires Covered(R, 0, |R|) == Covered(o, lo, k) - Cells(cut)
    requires Covered(o, k, hi) * Cells(cut) == {}
    ensures Covered(n, lo, hi + |R| - (k - lo)) == Covered(o, lo, hi) - Cells(cut)
  {
    var top := hi + |R| - (k - lo);
    CoveredSame(R, 0, |R|, n, lo, lo + |R|);
    CoveredSame(o, k, hi, n, lo + |R|, top);
    CoveredSplit(n, lo, lo + |R|, top);
    CoveredSplit(o, lo, k, hi);
    DiffDisjoint(Covered(n, lo, top), Covered(n, lo, lo + |R|), Covered(n, lo + |R|, top),
                 Covered(o, lo, k), Covered(o, k, hi), Cells(cut), Covered(o, lo, hi));
  }

  /** State of the removal loop at run k: besides `RemovedUpTo`, the runs from `ub` on start after
      `cut` does, and the loop has gone at most one run in front of them. */
  ghost predicate CutState(o: seq<Pair>, lo: int, hi: int, ub: int, cut: Pair, k: int, R: seq<Pair>)
  {
    RunsNonEmpty(o) && SortedIn(o, lo, hi, true) && cut.first < cut.second &&
    RemovedUpTo(o, lo, hi, k, R, cut) && lo <= ub <= hi && ub - 1 <= k &&
    (forall j :: ub <= j < hi ==> cut.first < o[j].first)
  }

  /** A sequence is its prefix, a middle stretch and its suffix, joined. */
  lemma SplitThree(o: seq<Pair>, a: int, b: int)
    requires 0 <= a <= b <= |o|
    ensures o[..a] + o[a..b] + o[b..] == o
  {
  }

  /** The runs [lo, hi) of `o`, now [lo, hi + ins) of `n`, cover the old cells minus those of `cut`. */
  ghost predicate CoversWithout(o: seq<Pair>, n: seq<Pair>, lo: int, hi: int, ins: int, cut: Pair)
    requires 0 <= lo <= hi <= |o| && lo <= hi + ins <= |n|
  {
    Covered(n, lo, hi + ins) == Covered(o, lo, hi) - Cells(cut)
  }

  /** When the removal loop stops (every run visited, or the next run lies beyond `cut`), the new
      stretch is a consistent splice that covers the old cells minus those of `cut`. */
  lemma CutClose(o: seq<Pair>, lo: int, hi: int, ub: int, cut: Pair, k: int, R: seq<Pair>, n: seq<Pair>, ins: int)
    requires CutState(o, lo, hi, ub, cut, k, R)
    requires k == hi || cut.second <= o[k].first
    requires n == o[..lo] + R + o[k..] && ins == |R| - (k - lo)
    ensures lo <= hi + ins
    ensures Spliced(o, n, lo, hi, ins, 0)
    ensures RunsNonEmpty(n) && SortedIn(n, lo, hi + ins, true)
    ensures CoversWithout(o, n, lo, hi, ins, cut)
  {
    RemoveRunSplice(o, lo, hi, k, R);
    BeyondCut(o, lo, hi, k, cut);
    RemoveRunCells(o, lo, hi, k, R, cut);
  }

  /** One turn of the removal loop keeps its state; a run after it that `cut` misses lies beyond it. */
  lemma CutStep(o: seq<Pair>, lo: int, hi: int, ub: int, cut: Pair, k: int, R: seq<Pair>)
    requires CutState(o, lo, hi, ub, cut, k, R) && k < hi
    ensures CutState(o, lo, hi, ub, cut, k + 1, R + Substract(o[k], cut))
    ensures k + 1 < hi && !Intersect(o[k + 1], cut) ==> cut.second <= o[k + 1].first
  {
    RemoveStep(o, lo, hi, k, R, cut);
  }

  /** Runs from the first one at or past the end of `cut` share no cell with it. */
  lemma BeyondCut(o: seq<Pair>, lo: int, hi: int, k: int, cut: Pair)
    requires SortedIn(o, lo, hi, true) && RunsNonEmpty(o) && lo <= k <= hi
    requires k == hi || o[k].first >= cut.second
    ensures Covered(o, k, hi) * Cells(cut) == {}
  {
    forall x | x in Covered(o, k, hi) ensures x !in Cells(cut) {
      CoveredMembership(o, k, hi, x);
      var j :| k <= j < hi && o[j].first <= x < o[j].second;
      if j > k {
        assert Before(o[k], o[j], true);
      }
    }
  }

  /** The element at the cursor of o[..lo] + R + o[k..] is o[k]. */
  lemma CutView(o: seq<Pair>, lo: int, R: seq<Pair>, k: int)
    requires 0 <= lo <= k < |o|
    ensures (o[..lo] + R + o[k..])[lo + |R|] == o[k]
    ensures o[..lo] + R + o[k..] == (o[..lo] + R) + [o[k]] + o[k + 1..]
  {
    assert o[k..] == [o[k]] + o[k + 1..];
  }

  /** Erasing the element after X from X + [p] + Y. */
  lemma SpliceOut(X: seq<Pair>, p: Pair, Y: seq<Pair>)
    ensures (X + [p] + Y)[..|X|] + (X + [p] + Y)[|X| + 1..] == X + Y
  {
    assert (X + [p] + Y)[..|X|] == X;
    assert (X + [p] + Y)[|X| + 1..] == Y;
  }

  /** Inserting p after X in X + Y. */
  lemma SpliceIn(X: seq<Pair>, p: Pair, Y: seq<Pair>)
    ensures (X + Y)[..|X|] + [p] + (X + Y)[|X|..] == X + [p] + Y
  {
    assert (X + Y)[..|X|] == X;
    assert (X + Y)[|X|..] == Y;
  }

  /** The stretch o[..cursor] + o[k..] seen by the loops: o with the runs [cursor, k) taken out. */
  lemma GapAt(o: seq<Pair>, cursor: int, k: int)
    requires 0 <= cursor <= k < |o|
    ensures (o[..cursor] + o[k..])[cursor] == o[k]
  {
  }

  lemma GapErase(o: seq<Pair>, cursor: int, k: int)
    requires 0 <= cursor <= k < |o|
    ensures var v := o[..cursor] + o[k..]; v[..cursor] + v[cursor + 1..] == o[..cursor] + o[k + 1..]
  {
    var v := o[..cursor] + o[k..];
    assert v[..cursor] == o[..cursor];
    assert v[cursor + 1..] == o[k + 1..];
  }

  lemma GapAdvance(o: seq<Pair>, cursor: int, k: int)
    requires 0 <= cursor == k < |o|
    ensures o[..cursor] + o[k..] == o[..cursor + 1] + o[k + 1..]
  {
    assert o[..cursor] + o[k..] == o;
    assert o[..cursor + 1] + o[k + 1..] == o;
  }

  lemma GapInsert(o: seq<Pair>, cursor: int, k: int, cur: Pair)
    requires 0 <= cursor <= k <= |o|
    ensures var v := o[..cursor] + o[k..]; v[..cursor] + [cur] + v[cursor..] == o[..cursor] + [cur] + o[k..]
  {
    var v := o[..cursor] + o[k..];
    assert v[..cursor] == o[..cursor];
    assert v[cursor..] == o[k..];
  }

  /** The runs [lo, hi) of `o`, now [lo, hi + ins) of `n`, cover the old cells and those of `streak`. */
  ghost predicate CoversWith(o: seq<Pair>, n: seq<Pair>, lo: int, hi: int, ins: int, streak: Pair)
    requires 0 <= lo <= hi <= |o| && lo <= hi + ins <= |n|
  {
    Covered(n, lo, hi + ins) == Covered(o, lo, hi) + Cells(streak)
  }

  /** Where the insertion loop stops, putting `cur` at the cursor completes the insertion. */
  lemma FuseFinish(o: seq<Pair>, lo: int, hi: int, ub: int, streak: Pair, cursor: int, k: int, cur: Pair,
                   n: seq<Pair>, inserts: int)
    requires FuseState(o, lo, hi, ub, streak, cursor, k, cur)
    requires k == hi || cur.second < o[k].first
    requires n == o[..cursor] + [cur] + o[k..] && inserts == 1 - (k - cursor)
    ensures inserts <= 1 && lo < hi + inserts
    ensures RunsNonEmpty(n) && Spliced(o, n, lo, hi, inserts, 0) && SortedIn(n, lo, hi + inserts, true)
    ensures CoversWith(o, n, lo, hi, inserts, streak)
  {
    InsertRunSplice(o, lo, hi, cursor, k, cur);
    InsertRunCells(o, lo, hi, cursor, k, cur, streak);
  }
}
