// The cells of a region in any number of dimensions, read off its index levels. A cell is the
// sequence of its coordinates, x first. A run of level 0 holds the cells [x] of its
// x-coordinates; an entry (c, offset) of level d > 0 holds every cell of its child range in
// level d - 1, extended by the coordinate c of dimension d.

module RegionCells {
  import opened NewRegionLevels

  // ---------------------------------------------------------------------------
  // Cells, levels and streaks
  // ---------------------------------------------------------------------------

  /** The one-dimensional cells [x] for x in X. */
  ghost function Points(X: set<int>): set<seq<int>>
  {
    set x | x in X :: [x]
  }

  /** The cells of S, each extended by the coordinate c of the next dimension. */
  ghost function Lift(S: set<seq<int>>, c: int): set<seq<int>>
  {
    set p | p in S :: p + [c]
  }

  /** The cells of entry j of level d. */
  ghost function EntryCells(L: seq<seq<Pair>>, d: nat, j: int): set<seq<int>>
    requires d < |L| && 0 <= j < |L[d]|
    decreases d, 0, 0
  {
    if d == 0 then Points(Cells(L[0][j]))
    else
      var a, b := L[d][j].second, ChildEnd(L[d], j, |L[d - 1]|);
      if 0 <= a <= b <= |L[d - 1]| then Lift(StretchCells(L, d - 1, a, b), L[d][j].first) else {}
  }

  /** The cells of the entries [a, b) of level d. */
  ghost function StretchCells(L: seq<seq<Pair>>, d: nat, a: int, b: int): set<seq<int>>
    requires d < |L| && 0 <= a <= b <= |L[d]|
    decreases d, 1, b - a
  {
    if a == b then {} else StretchCells(L, d, a, b - 1) + EntryCells(L, d, b - 1)
  }

  /** The cells of a region: those of all entries of its top level. */
  ghost function RegionCellsOf(L: seq<seq<Pair>>): set<seq<int>>
    requires |L| >= 1
  {
    StretchCells(L, |L| - 1, 0, |L[|L| - 1]|)
  }

  /** The cells of the streak from `origin` to `endX`, in dimensions 0..d. */
  ghost function StreakCells(origin: seq<int>, endX: int, d: nat): set<seq<int>>
    requires d < |origin|
  {
    if d == 0 then Points(Cells(Pair(origin[0], endX)))
    else Lift(StreakCells(origin, endX, d - 1), origin[d])
  }

  lemma LiftMembership(S: set<seq<int>>, c: int, p: seq<int>)
    ensures p in Lift(S, c) <==> |p| >= 1 && p[|p| - 1] == c && p[..|p| - 1] in S
  {
    if |p| >= 1 && p[|p| - 1] == c && p[..|p| - 1] in S {
      assert p == p[..|p| - 1] + [c];
    }
    if p in Lift(S, c) {
      var q :| q in S && p == q + [c];
      assert p[..|p| - 1] == q;
    }
  }

  /** A streak holds exactly the cells whose x lies in [origin[0], endX) and whose other
      coordinates are those of its origin. */
  lemma {:induction false} StreakCellsMembership(origin: seq<int>, endX: int, d: nat, p: seq<int>)
    requires d < |origin|
    ensures p in StreakCells(origin, endX, d) <==>
      |p| == d + 1 && origin[0] <= p[0] < endX && forall k :: 0 < k <= d ==> p[k] == origin[k]
  {
    if d == 0 {
      if p in StreakCells(origin, endX, 0) {
        var x :| x in Cells(Pair(origin[0], endX)) && p == [x];
        CellsMembership(Pair(origin[0], endX), x);
      }
      if |p| == 1 && origin[0] <= p[0] < endX {
        CellsMembership(Pair(origin[0], endX), p[0]);
        assert p == [p[0]];
      }
    } else {
      LiftMembership(StreakCells(origin, endX, d - 1), origin[d], p);
      if |p| >= 1 {
        var q := p[..|p| - 1];
        StreakCellsMembership(origin, endX, d - 1, q);
        if |p| == d + 1 {
          assert forall k :: 0 <= k < d ==> q[k] == p[k];
        }
      }
    }
  }

  // ---------------------------------------------------------------------------
  // Set algebra of lifted cells
  // ---------------------------------------------------------------------------

  lemma LiftUnion(A: set<seq<int>>, B: set<seq<int>>, c: int)
    ensures Lift(A + B, c) == Lift(A, c) + Lift(B, c)
  {
  }

  lemma LiftMinus(A: set<seq<int>>, B: set<seq<int>>, c: int)
    ensures Lift(A - B, c) == Lift(A, c) - Lift(B, c)
  {
    forall p | p in Lift(A, c) - Lift(B, c) ensures p in Lift(A - B, c) {
      LiftMembership(A, c, p);
      LiftMembership(B, c, p);
      LiftMembership(A - B, c, p);
    }
    forall p | p in Lift(A - B, c) ensures p in Lift(A, c) - Lift(B, c) {
      LiftMembership(A, c, p);
      LiftMembership(B, c, p);
      LiftMembership(A - B, c, p);
    }
  }

  /** Cells lifted by different coordinates are different cells. */
  lemma LiftApart(A: set<seq<int>>, B: set<seq<int>>, c: int, c': int)
    requires c != c'
    ensures Lift(A, c) !! Lift(B, c')
  {
    forall p | p in Lift(A, c) ensures p !in Lift(B, c') {
      LiftMembership(A, c, p);
      LiftMembership(B, c', p);
    }
  }

  lemma PointsUnion(A: set<int>, B: set<int>)
    ensures Points(A + B) == Points(A) + Points(B)
  {
  }

  lemma PointsMembership(X: set<int>, p: seq<int>)
    ensures p in Points(X) <==> |p| == 1 && p[0] in X
  {
    if |p| == 1 && p[0] in X {
      var x := p[0];
      assert [x] in Points(X);
      assert p == [x];
    }
    if p in Points(X) {
      var x :| x in X && p == [x];
      assert p[0] == x;
    }
  }

  lemma PointsMinus(A: set<int>, B: set<int>)
    ensures Points(A - B) == Points(A) - Points(B)
  {
    forall p ensures p in Points(A - B) <==> p in Points(A) - Points(B) {
      PointsMembership(A, p);
      PointsMembership(B, p);
      PointsMembership(A - B, p);
    }
  }

  // ---------------------------------------------------------------------------
  // Stretches
  // ---------------------------------------------------------------------------

  lemma {:induction false} StretchSplit(L: seq<seq<Pair>>, d: nat, a: int, b: int, c: int)
    requires d < |L| && 0 <= a <= b <= c <= |L[d]|
    ensures StretchCells(L, d, a, c) == StretchCells(L, d, a, b) + StretchCells(L, d, b, c)
    decreases c - b
  {
    if b < c {
      StretchSplit(L, d, a, b, c - 1);
    }
  }

  /** The entries o[d][a..b) hold the same cells as the entries of n[d] from index c on. */
  ghost predicate EntriesKept(o: seq<seq<Pair>>, n: seq<seq<Pair>>, d: nat, a: int, b: int, c: int)
    requires d < |o| && d < |n| && 0 <= a <= b <= |o[d]| && 0 <= c && c + (b - a) <= |n[d]|
  {
    forall j :: a <= j < b ==> EntryCells(n, d, c + (j - a)) == EntryCells(o, d, j)
  }

  /** Entries that keep their cells give stretches that keep their cells, wherever they sit. */
  lemma {:induction false} StretchKept(o: seq<seq<Pair>>, n: seq<seq<Pair>>, d: nat, a: int, b: int, c: int, m: int)
    requires d < |o| && d < |n| && 0 <= a <= b <= |o[d]| && 0 <= c && m == c + (b - a) <= |n[d]|
    requires EntriesKept(o, n, d, a, b, c)
    ensures StretchCells(n, d, c, m) == StretchCells(o, d, a, b)
    decreases b - a
  {
    if a < b {
      StretchKept(o, n, d, a, b - 1, c, m - 1);
      assert EntryCells(n, d, m - 1) == EntryCells(o, d, b - 1);
    }
  }

  /** On level 0 a stretch holds the cells its runs cover. */
  lemma {:induction false} StretchLevelZero(L: seq<seq<Pair>>, a: int, b: int)
    requires 1 <= |L| && 0 <= a <= b <= |L[0]|
    ensures StretchCells(L, 0, a, b) == Points(Covered(L[0], a, b))
    decreases b - a
  {
    if a < b {
      StretchLevelZero(L, a, b - 1);
      PointsUnion(Covered(L[0], a, b - 1), Cells(L[0][b - 1]));
    }
  }

  /** The cells of levels 0..d depend on those levels alone. */
  lemma {:induction false} StretchBelow(L: seq<seq<Pair>>, L': seq<seq<Pair>>, d: nat, a: int, b: int)
    requires d < |L| && d < |L'| && L[..d + 1] == L'[..d + 1] && 0 <= a <= b <= |L[d]|
    ensures |L[d]| == |L'[d]| && StretchCells(L, d, a, b) == StretchCells(L', d, a, b)
    decreases d, 1, b - a
  {
    assert L[d] == L[..d + 1][d] == L'[..d + 1][d] == L'[d];
    if a < b {
      StretchBelow(L, L', d, a, b - 1);
      EntryBelow(L, L', d, b - 1);
    }
  }

  lemma {:induction false} EntryBelow(L: seq<seq<Pair>>, L': seq<seq<Pair>>, d: nat, j: int)
    requires d < |L| && d < |L'| && L[..d + 1] == L'[..d + 1] && 0 <= j < |L[d]|
    ensures |L[d]| == |L'[d]| && EntryCells(L, d, j) == EntryCells(L', d, j)
    decreases d, 0, 0
  {
    assert L[d] == L[..d + 1][d] == L'[..d + 1][d] == L'[d];
    if d > 0 {
      assert L[d - 1] == L[..d + 1][d - 1] == L'[..d + 1][d - 1] == L'[d - 1];
      assert L[..d] == L[..d + 1][..d] == L'[..d + 1][..d] == L'[..d];
      var a, b := L[d][j].second, ChildEnd(L[d], j, |L[d - 1]|);
      if 0 <= a <= b <= |L[d - 1]| {
        StretchBelow(L, L', d - 1, a, b);
      }
    }
  }

  /** `EntriesKept` carries over to levels that agree on 0..d. */
  lemma KeptBelow(o: seq<seq<Pair>>, o': seq<seq<Pair>>, n: seq<seq<Pair>>, n': seq<seq<Pair>>,
                  d: nat, a: int, b: int, c: int)
    requires d < |o| && d < |n| && d < |o'| && d < |n'|
    requires o[..d + 1] == o'[..d + 1] && n[..d + 1] == n'[..d + 1]
    requires 0 <= a <= b <= |o[d]| && 0 <= c && c + (b - a) <= |n[d]|
    requires EntriesKept(o, n, d, a, b, c)
    ensures |o'[d]| == |o[d]| && |n'[d]| == |n[d]| && EntriesKept(o', n', d, a, b, c)
  {
    assert o[d] == o[..d + 1][d] == o'[..d + 1][d] == o'[d];
    assert n[d] == n[..d + 1][d] == n'[..d + 1][d] == n'[d];
    forall j | a <= j < b ensures EntryCells(n', d, c + (j - a)) == EntryCells(o', d, j) {
      EntryBelow(o, o', d, j);
      EntryBelow(n, n', d, c + (j - a));
    }
  }

  /** Above level 0, entries whose coordinates differ from c hold no cell of dimension d at c. */
  lemma {:induction false} StretchApart(L: seq<seq<Pair>>, d: nat, a: int, b: int, S: set<seq<int>>, c: int)
    requires 0 < d < |L| && 0 <= a <= b <= |L[d]|
    requires forall j :: a <= j < b ==> L[d][j].first != c
    ensures StretchCells(L, d, a, b) !! Lift(S, c)
    decreases b - a
  {
    if a < b {
      StretchApart(L, d, a, b - 1, S, c);
      var x, y := L[d][b - 1].second, ChildEnd(L[d], b - 1, |L[d - 1]|);
      if 0 <= x <= y <= |L[d - 1]| {
        LiftApart(StretchCells(L, d - 1, x, y), S, L[d][b - 1].first, c);
      }
    }
  }

  /** An entry of level d > 0 keeps its cells when it keeps its coordinate and its child range
      moves by t onto a stretch of level d - 1 that keeps the cells. */
  lemma EntryMoved(o: seq<seq<Pair>>, n: seq<seq<Pair>>, d: nat, j: int, j': int, t: int)
    requires 0 < d < |o| && d < |n| && 0 <= j < |o[d]| && 0 <= j' < |n[d]|
    requires Partitions(o[d], |o[d - 1]|) && Partitions(n[d], |n[d - 1]|)
    requires n[d][j'].first == o[d][j].first && n[d][j'].second == o[d][j].second + t
    requires ChildEnd(n[d], j', |n[d - 1]|) == ChildEnd(o[d], j, |o[d - 1]|) + t
    requires EntriesKept(o, n, d - 1, o[d][j].second, ChildEnd(o[d], j, |o[d - 1]|), o[d][j].second + t)
    ensures EntryCells(n, d, j') == EntryCells(o, d, j)
  {
    ChildEndBounds(o[d], |o[d - 1]|, j);
    ChildEndBounds(n[d], |n[d - 1]|, j');
    var a, b := o[d][j].second, ChildEnd(o[d], j, |o[d - 1]|);
    StretchKept(o, n, d - 1, a, b, a + t, b + t);
  }

  /** A kept stretch keeps every stretch inside it. */
  lemma KeptSub(o: seq<seq<Pair>>, n: seq<seq<Pair>>, d: nat, a: int, b: int, c: int, a': int, b': int)
    requires d < |o| && d < |n| && 0 <= a <= a' <= b' <= b <= |o[d]| && 0 <= c && c + (b - a) <= |n[d]|
    requires EntriesKept(o, n, d, a, b, c)
    ensures EntriesKept(o, n, d, a', b', c + (a' - a))
  {
    forall j | a' <= j < b' ensures EntryCells(n, d, c + (a' - a) + (j - a')) == EntryCells(o, d, j) {
      assert c + (a' - a) + (j - a') == c + (j - a);
    }
  }

  /** A stretch that lost or gained entries only in [m, k) is its kept parts plus the new middle. */
  lemma StretchReplaced(o: seq<seq<Pair>>, n: seq<seq<Pair>>, d: nat, lo: int, hi: int, m: int, k: int, r: int)
    requires d < |o| && d < |n| && 0 <= lo <= m <= k <= hi <= |o[d]| && |n[d]| == |o[d]| + r && m <= k + r
    requires EntriesKept(o, n, d, lo, m, lo) && EntriesKept(o, n, d, k, hi, k + r)
    ensures StretchCells(n, d, lo, hi + r) ==
      StretchCells(o, d, lo, m) + StretchCells(n, d, m, k + r) + StretchCells(o, d, k, hi)
    ensures StretchCells(o, d, lo, hi) ==
      StretchCells(o, d, lo, m) + StretchCells(o, d, m, k) + StretchCells(o, d, k, hi)
  {
    StretchSplit(n, d, lo, m, hi + r);
    StretchSplit(n, d, m, k + r, hi + r);
    StretchSplit(o, d, lo, m, hi);
    StretchSplit(o, d, m, k, hi);
    StretchKept(o, n, d, lo, m, lo, m);
    StretchKept(o, n, d, k, hi, k + r, hi + r);
  }

  // ---------------------------------------------------------------------------
  // Entries that move
  // ---------------------------------------------------------------------------

  /** The entries U[a..b) reappear in U' from index c on with their coordinates, their offsets
      and the ends of their child ranges moved by t; m and m' are the lengths of the levels
      below U and U'. */
  ghost predicate Moves(U: seq<Pair>, U': seq<Pair>, m: int, m': int, a: int, b: int, c: int, t: int)
    requires 0 <= a <= b <= |U| && 0 <= c && c + (b - a) <= |U'|
  {
    forall j {:trigger ChildEnd(U, j, m)} :: a <= j < b ==>
      U'[c + (j - a)].first == U[j].first && U'[c + (j - a)].second == U[j].second + t &&
      ChildEnd(U', c + (j - a), m') == ChildEnd(U, j, m) + t
  }

  /** Entries that move by t onto child ranges inside a kept stretch [x, y) keep their cells. */
  lemma KeptLevel(o: seq<seq<Pair>>, n: seq<seq<Pair>>, d: nat, a: int, b: int, c: int, t: int, x: int, y: int)
    requires 0 < d < |o| && d < |n| && 0 <= a <= b <= |o[d]| && 0 <= c && c + (b - a) <= |n[d]|
    requires Partitions(o[d], |o[d - 1]|) && Partitions(n[d], |n[d - 1]|)
    requires Moves(o[d], n[d], |o[d - 1]|, |n[d - 1]|, a, b, c, t)
    requires 0 <= x <= y <= |o[d - 1]| && 0 <= x + t && y + t <= |n[d - 1]|
    requires a < b ==> x <= o[d][a].second && ChildEnd(o[d], b - 1, |o[d - 1]|) <= y
    requires EntriesKept(o, n, d - 1, x, y, x + t)
    ensures EntriesKept(o, n, d, a, b, c)
  {
    forall j | a <= j < b ensures EntryCells(n, d, c + (j - a)) == EntryCells(o, d, j) {
      assert a < j ==> o[d][a].second < o[d][j].second;
      if j < b - 1 {
        ChildEndBounds(o[d], |o[d - 1]|, j);
        ChildEndBounds(o[d], |o[d - 1]|, b - 1);
        assert ChildEnd(o[d], j, |o[d - 1]|) <= o[d][b - 1].second;
      }
      KeptEntry(o, n, d, j, c + (j - a), t, x, y);
    }
  }

  /** One entry of `KeptLevel`. */
  lemma KeptEntry(o: seq<seq<Pair>>, n: seq<seq<Pair>>, d: nat, j: int, j': int, t: int, x: int, y: int)
    requires 0 < d < |o| && d < |n| && 0 <= j < |o[d]| && 0 <= j' < |n[d]|
    requires Partitions(o[d], |o[d - 1]|) && Partitions(n[d], |n[d - 1]|)
    requires n[d][j'].first == o[d][j].first && n[d][j'].second == o[d][j].second + t
    requires ChildEnd(n[d], j', |n[d - 1]|) == ChildEnd(o[d], j, |o[d - 1]|) + t
    requires 0 <= x <= o[d][j].second && ChildEnd(o[d], j, |o[d - 1]|) <= y <= |o[d - 1]|
    requires 0 <= x + t && y + t <= |n[d - 1]|
    requires EntriesKept(o, n, d - 1, x, y, x + t)
    ensures EntryCells(n, d, j') == EntryCells(o, d, j)
  {
    var p, q := o[d][j].second, ChildEnd(o[d], j, |o[d - 1]|);
    ChildEndBounds(o[d], |o[d - 1]|, j);
    KeptSub(o, n, d - 1, x, y, x + t, p, q);
    assert x + t + (p - x) == p + t;
    EntryMoved(o, n, d, j, j', t);
  }

  /** Level U' is U with entry e kept and the entries after it moved by r. */
  ghost predicate FoundShape(U: seq<Pair>, U': seq<Pair>, m: int, m': int, e: int, r: int)
  {
    0 <= e < |U| == |U'| &&
    Moves(U, U', m, m', 0, e, 0, 0) && Moves(U, U', m, m', e + 1, |U|, e + 1, r) &&
    U'[e] == U[e] && ChildEnd(U', e, m') == ChildEnd(U, e, m) + r
  }

  /** Level U' is U with entry e erased and the entries after it moved by r. */
  ghost predicate ErasedShape(U: seq<Pair>, U': seq<Pair>, m: int, m': int, e: int, r: int)
  {
    0 <= e < |U| && |U'| == |U| - 1 &&
    Moves(U, U', m, m', 0, e, 0, 0) && Moves(U, U', m, m', e + 1, |U|, e, r)
  }

  /** Level U' is U with the entry (c, nls) added at index i, whose child range ends at
      nls + r, and the entries from i on moved one place up and by r. */
  ghost predicate AddedShape(U: seq<Pair>, U': seq<Pair>, m: int, m': int, i: int, c: int, nls: int, r: int)
  {
    0 <= i <= |U| && |U'| == |U| + 1 &&
    Moves(U, U', m, m', 0, i, 0, 0) && Moves(U, U', m, m', i, |U|, i + 1, r) &&
    U'[i] == Pair(c, nls) && ChildEnd(U', i, m') == nls + r
  }

  /** The level left by the found case has the found shape. */
  lemma FoundShaped(U: seq<Pair>, U': seq<Pair>, m: int, m': int, e: int, r: int)
    requires 0 <= e < |U| && U' == U[..e + 1] + Shift(U[e + 1..], r) && m' == m + r
    ensures FoundShape(U, U', m, m', e, r)
  {
    forall j | 0 <= j < e
      ensures U'[j] == U[j] && ChildEnd(U', j, m') == ChildEnd(U, j, m)
    {
      assert U'[j + 1] == U[j + 1];
    }
    forall j | e + 1 <= j < |U|
      ensures U'[j] == Pair(U[j].first, U[j].second + r)
      ensures ChildEnd(U', j, m') == ChildEnd(U, j, m) + r
    {
      assert U'[j] == Shift(U[e + 1..], r)[j - e - 1];
      if j + 1 < |U| {
        assert U'[j + 1] == Shift(U[e + 1..], r)[j - e];
      }
    }
    assert U'[e] == U[e];
    if e + 1 < |U| {
      assert U'[e + 1] == Shift(U[e + 1..], r)[0];
    }
  }

  /** The level left by erasing entry e, whose child range [U[e].second, end) became empty, has
      the erased shape. */
  lemma ErasedShaped(U: seq<Pair>, U': seq<Pair>, m: int, m': int, e: int, r: int)
    requires 0 <= e < |U| && U' == U[..e] + Shift(U[e + 1..], r) && m' == m + r
    requires U[e].second == ChildEnd(U, e, m) + r
    ensures ErasedShape(U, U', m, m', e, r)
  {
    forall j | 0 <= j < e
      ensures U'[j] == U[j] && ChildEnd(U', j, m') == ChildEnd(U, j, m)
    {
      if j + 1 < e {
        assert U'[j + 1] == U[j + 1];
      } else if e < |U'| {
        assert U'[e] == Shift(U[e + 1..], r)[0];
      }
    }
    forall j | e + 1 <= j < |U|
      ensures U'[j - 1] == Pair(U[j].first, U[j].second + r)
      ensures ChildEnd(U', j - 1, m') == ChildEnd(U, j, m) + r
    {
      assert U'[j - 1] == Shift(U[e + 1..], r)[j - 1 - e];
      if j + 1 < |U| {
        assert U'[j] == Shift(U[e + 1..], r)[j - e];
      }
    }
  }

  /** The level left by adding the entry (c, nls) at index i, where nls is where the child range
      of the entry then at i started, has the added shape. */
  lemma AddedShaped(U: seq<Pair>, U': seq<Pair>, m: int, m': int, i: int, c: int, nls: int, r: int)
    requires 0 <= i <= |U| && U' == U[..i] + [Pair(c, nls)] + Shift(U[i..], r) && m' == m + r
    requires nls == (if i != |U| then U[i].second else m)
    ensures AddedShape(U, U', m, m', i, c, nls, r)
  {
    forall j | 0 <= j < i
      ensures U'[j] == U[j] && ChildEnd(U', j, m') == ChildEnd(U, j, m)
    {
      if j + 1 < i {
        assert U'[j + 1] == U[j + 1];
      } else {
        assert U'[i] == Pair(c, nls);
      }
    }
    forall j | i <= j < |U|
      ensures U'[j + 1] == Pair(U[j].first, U[j].second + r)
      ensures ChildEnd(U', j + 1, m') == ChildEnd(U, j, m) + r
    {
      assert U'[j + 1] == Shift(U[i..], r)[j - i];
      if j + 1 < |U| {
        assert U'[j + 2] == Shift(U[i..], r)[j + 1 - i];
      }
    }
    assert U'[i] == Pair(c, nls);
    if i < |U| {
      assert U'[i + 1] == Shift(U[i..], r)[0];
    }
  }

  // ---------------------------------------------------------------------------
  // One step of the descent
  // ---------------------------------------------------------------------------

  /** Level 0: the runs outside the splice [lo, hi) keep their cells. */
  lemma ZeroKept(o: seq<seq<Pair>>, n: seq<seq<Pair>>, lo: int, hi: int, r: int)
    requires 1 <= |o| && 1 <= |n| && Spliced(o[0], n[0], lo, hi, r, 0)
    ensures EntriesKept(o, n, 0, 0, lo, 0) && EntriesKept(o, n, 0, hi, |o[0]|, hi + r)
  {
    forall j | 0 <= j < lo ensures n[0][j] == o[0][j] {
      assert n[0][j] == n[0][..lo][j];
    }
    forall j | hi <= j < |o[0]| ensures n[0][hi + r + (j - hi)] == o[0][j] {
      assert n[0][hi + r + (j - hi)] == n[0][hi + r..][j - hi] == Shift(o[0][hi..], 0)[j - hi];
    }
  }

  /** The stretch [lo, hi) of level d of `o` became [lo, hi + k) in `n` and gained the cells of
      the streak, while the entries before and after it kept theirs. */
  ghost predicate StreakAdded(o: seq<seq<Pair>>, n: seq<seq<Pair>>, d: nat, lo: int, hi: int, k: int,
                              origin: seq<int>, endX: int)
    requires d < |o| && d < |n| && d < |origin| && 0 <= lo <= hi <= |o[d]| && lo <= hi + k
    requires |n[d]| == |o[d]| + k
  {
    EntriesKept(o, n, d, 0, lo, 0) && EntriesKept(o, n, d, hi, |o[d]|, hi + k) &&
    StretchCells(n, d, lo, hi + k) == StretchCells(o, d, lo, hi) + StreakCells(origin, endX, d)
  }

  /** As `StreakAdded`, with the stretch losing the cells of the streak. */
  ghost predicate StreakRemoved(o: seq<seq<Pair>>, n: seq<seq<Pair>>, d: nat, lo: int, hi: int, k: int,
                                origin: seq<int>, endX: int)
    requires d < |o| && d < |n| && d < |origin| && 0 <= lo <= hi <= |o[d]| && lo <= hi + k
    requires |n[d]| == |o[d]| + k
  {
    EntriesKept(o, n, d, 0, lo, 0) && EntriesKept(o, n, d, hi, |o[d]|, hi + k) &&
    StretchCells(n, d, lo, hi + k) == StretchCells(o, d, lo, hi) - StreakCells(origin, endX, d)
  }

  /** Level 0 of an insertion: the splice covers the streak's cells besides the old ones. */
  lemma ZeroInserted(o: seq<seq<Pair>>, n: seq<seq<Pair>>, lo: int, hi: int, r: int, origin: seq<int>, endX: int)
    requires 1 <= |o| && 1 <= |n| && 1 <= |origin| && Spliced(o[0], n[0], lo, hi, r, 0)
    requires Covered(n[0], lo, hi + r) == Covered(o[0], lo, hi) + Cells(Pair(origin[0], endX))
    ensures StreakAdded(o, n, 0, lo, hi, r, origin, endX)
  {
    ZeroKept(o, n, lo, hi, r);
    StretchLevelZero(n, lo, hi + r);
    StretchLevelZero(o, lo, hi);
    PointsUnion(Covered(o[0], lo, hi), Cells(Pair(origin[0], endX)));
  }

  /** Level 0 of a removal: the splice covers the old cells but the streak's. */
  lemma ZeroRemoved(o: seq<seq<Pair>>, n: seq<seq<Pair>>, lo: int, hi: int, r: int, origin: seq<int>, endX: int)
    requires 1 <= |o| && 1 <= |n| && 1 <= |origin| && Spliced(o[0], n[0], lo, hi, r, 0)
    requires Covered(n[0], lo, hi + r) == Covered(o[0], lo, hi) - Cells(Pair(origin[0], endX))
    ensures StreakRemoved(o, n, 0, lo, hi, r, origin, endX)
  {
    ZeroKept(o, n, lo, hi, r);
    StretchLevelZero(n, lo, hi + r);
    StretchLevelZero(o, lo, hi);
    PointsMinus(Covered(o[0], lo, hi), Cells(Pair(origin[0], endX)));
  }

  /** Entries of level d that move by t onto child ranges inside a stretch [x, y) of level
      d - 1 that the descent kept (from o to n1, with F sharing levels 0..d - 1 with n1). */
  lemma MovedKept(o: seq<seq<Pair>>, n1: seq<seq<Pair>>, F: seq<seq<Pair>>, d: nat,
                  a: int, b: int, c: int, t: int, x: int, y: int)
    requires 0 < d < |o| == |n1| == |F| && 0 <= a <= b <= |o[d]| && 0 <= c && c + (b - a) <= |F[d]|
    requires Partitions(o[d], |o[d - 1]|) && Partitions(F[d], |F[d - 1]|) && F[..d] == n1[..d]
    requires Moves(o[d], F[d], |o[d - 1]|, |F[d - 1]|, a, b, c, t)
    requires 0 <= x <= y <= |o[d - 1]| && 0 <= x + t && y + t <= |n1[d - 1]|
    requires a < b ==> x <= o[d][a].second && ChildEnd(o[d], b - 1, |o[d - 1]|) <= y
    requires EntriesKept(o, n1, d - 1, x, y, x + t)
    ensures EntriesKept(o, F, d, a, b, c)
  {
    assert F[d - 1] == F[..d][d - 1] == n1[..d][d - 1] == n1[d - 1];
    KeptBelow(o, o, n1, F, d - 1, x, y, x + t);
    KeptLevel(o, F, d, a, b, c, t, x, y);
  }

  /** Entry e of level d > 0 was found and kept; the descent turned its child range [a, b) of
      level d - 1 into [a, b + r) of L1, and F takes levels 0..d - 1 from L1 and moves the
      offsets after e by r. Every other entry keeps its cells. */
  lemma FoundEntries(L: seq<seq<Pair>>, L1: seq<seq<Pair>>, F: seq<seq<Pair>>, d: nat,
                     e: int, a: int, b: int, r: int)
    requires 0 < d < |L| == |L1| == |F|
    requires Partitions(L[d], |L[d - 1]|) && Partitions(F[d], |F[d - 1]|)
    requires F[..d] == L1[..d] && FoundShape(L[d], F[d], |L[d - 1]|, |F[d - 1]|, e, r)
    requires a == L[d][e].second && b == ChildEnd(L[d], e, |L[d - 1]|) && 0 <= a <= b <= |L[d - 1]|
    requires |L1[d - 1]| == |L[d - 1]| + r && a <= b + r
    requires EntriesKept(L, L1, d - 1, 0, a, 0) && EntriesKept(L, L1, d - 1, b, |L[d - 1]|, b + r)
    ensures EntriesKept(L, F, d, 0, e, 0) && EntriesKept(L, F, d, e + 1, |L[d]|, e + 1)
    ensures EntryCells(F, d, e) == Lift(StretchCells(L1, d - 1, a, b + r), L[d][e].first)
  {
    assert F[d - 1] == F[..d][d - 1] == L1[..d][d - 1] == L1[d - 1];
    MovedKept(L, L1, F, d, 0, e, 0, 0, 0, a);
    MovedKept(L, L1, F, d, e + 1, |L[d]|, e + 1, r, b, |L[d - 1]|);
    StretchBelow(F, L1, d - 1, a, b + r);
  }

  /** A stretch whose middle entries [m, k) became [m, k + r) and gained the cells T, the rest
      kept, gained T. */
  lemma StretchGained(o: seq<seq<Pair>>, n: seq<seq<Pair>>, d: nat, lo: int, hi: int, m: int, k: int, r: int,
                      T: set<seq<int>>)
    requires d < |o| && d < |n| && 0 <= lo <= m <= k <= hi <= |o[d]| && |n[d]| == |o[d]| + r && m <= k + r
    requires EntriesKept(o, n, d, lo, m, lo) && EntriesKept(o, n, d, k, hi, k + r)
    requires StretchCells(n, d, m, k + r) == StretchCells(o, d, m, k) + T
    ensures StretchCells(n, d, lo, hi + r) == StretchCells(o, d, lo, hi) + T
  {
    StretchReplaced(o, n, d, lo, hi, m, k, r);
  }

  /** A stretch whose middle entries [m, k) became [m, k + r) and lost the cells T, the rest
      kept and apart from T, lost T. */
  lemma StretchLost(o: seq<seq<Pair>>, n: seq<seq<Pair>>, d: nat, lo: int, hi: int, m: int, k: int, r: int,
                    T: set<seq<int>>)
    requires d < |o| && d < |n| && 0 <= lo <= m <= k <= hi <= |o[d]| && |n[d]| == |o[d]| + r && m <= k + r
    requires EntriesKept(o, n, d, lo, m, lo) && EntriesKept(o, n, d, k, hi, k + r)
    requires StretchCells(n, d, m, k + r) == StretchCells(o, d, m, k) - T
    requires StretchCells(o, d, lo, m) !! T && StretchCells(o, d, k, hi) !! T
    ensures StretchCells(n, d, lo, hi + r) == StretchCells(o, d, lo, hi) - T
  {
    StretchReplaced(o, n, d, lo, hi, m, k, r);
  }

  /** Level d of n differs from that of o only in the entries [m, k) of o, which became the
      entries [m, k + r) of n and gained the cells T: the stretch [lo, hi) around them gained T,
      and the entries outside it kept their cells. */
  lemma SplicedGained(o: seq<seq<Pair>>, n: seq<seq<Pair>>, d: nat, lo: int, hi: int, m: int, k: int, r: int,
                      T: set<seq<int>>)
    requires d < |o| && d < |n| && 0 <= lo <= m <= k <= hi <= |o[d]| && |n[d]| == |o[d]| + r && m <= k + r
    requires EntriesKept(o, n, d, 0, m, 0) && EntriesKept(o, n, d, k, |o[d]|, k + r)
    requires StretchCells(n, d, m, k + r) == StretchCells(o, d, m, k) + T
    ensures EntriesKept(o, n, d, 0, lo, 0) && EntriesKept(o, n, d, hi, |o[d]|, hi + r)
    ensures StretchCells(n, d, lo, hi + r) == StretchCells(o, d, lo, hi) + T
  {
    KeptSub(o, n, d, 0, m, 0, lo, m);
    KeptSub(o, n, d, k, |o[d]|, k + r, k, hi);
    StretchGained(o, n, d, lo, hi, m, k, r, T);
    KeptSub(o, n, d, 0, m, 0, 0, lo);
    KeptSub(o, n, d, k, |o[d]|, k + r, hi, |o[d]|);
  }

  /** As `SplicedGained`, for middle entries that lost the cells T, which the kept entries
      inside [lo, hi) do not hold. */
  lemma SplicedLost(o: seq<seq<Pair>>, n: seq<seq<Pair>>, d: nat, lo: int, hi: int, m: int, k: int, r: int,
                    T: set<seq<int>>)
    requires d < |o| && d < |n| && 0 <= lo <= m <= k <= hi <= |o[d]| && |n[d]| == |o[d]| + r && m <= k + r
    requires EntriesKept(o, n, d, 0, m, 0) && EntriesKept(o, n, d, k, |o[d]|, k + r)
    requires StretchCells(n, d, m, k + r) == StretchCells(o, d, m, k) - T
    requires StretchCells(o, d, lo, m) !! T && StretchCells(o, d, k, hi) !! T
    ensures EntriesKept(o, n, d, 0, lo, 0) && EntriesKept(o, n, d, hi, |o[d]|, hi + r)
    ensures StretchCells(n, d, lo, hi + r) == StretchCells(o, d, lo, hi) - T
  {
    KeptSub(o, n, d, 0, m, 0, lo, m);
    KeptSub(o, n, d, k, |o[d]|, k + r, k, hi);
    StretchLost(o, n, d, lo, hi, m, k, r, T);
    KeptSub(o, n, d, 0, m, 0, 0, lo);
    KeptSub(o, n, d, k, |o[d]|, k + r, hi, |o[d]|);
  }

  /** The cells of an entry whose child range gained the streak's cells below dimension d. */
  lemma EntryGained(L: seq<seq<Pair>>, L1: seq<seq<Pair>>, F: seq<seq<Pair>>, d: nat, e: int,
                    a: int, b: int, r: int, origin: seq<int>, endX: int)
    requires 0 < d < |L| == |L1| == |F| && d < |origin| && 0 <= e < |L[d]| && 0 <= e < |F[d]|
    requires a == L[d][e].second && b == ChildEnd(L[d], e, |L[d - 1]|) && 0 <= a <= b <= |L[d - 1]|
    requires L[d][e].first == origin[d] && 0 <= a <= b + r <= |L1[d - 1]|
    requires EntryCells(F, d, e) == Lift(StretchCells(L1, d - 1, a, b + r), origin[d])
    requires StretchCells(L1, d - 1, a, b + r) == StretchCells(L, d - 1, a, b) + StreakCells(origin, endX, d - 1)
    ensures StretchCells(F, d, e, e + 1) == StretchCells(L, d, e, e + 1) + StreakCells(origin, endX, d)
  {
    LiftUnion(StretchCells(L, d - 1, a, b), StreakCells(origin, endX, d - 1), origin[d]);
  }

  /** Insertion, entry e found: the stretch [lo, hi) gains the streak's cells. */
  lemma FoundInserted(L: seq<seq<Pair>>, L1: seq<seq<Pair>>, F: seq<seq<Pair>>, d: nat, lo: int, hi: int, k: int,
                      e: int, a: int, b: int, r: int, origin: seq<int>, endX: int)
    requires 0 < d < |L| == |L1| == |F| && d < |origin| && k == 0
    requires Partitions(L[d], |L[d - 1]|) && Partitions(F[d], |F[d - 1]|)
    requires 0 <= lo <= e < hi <= |L[d]| && L[d][e].first == origin[d]
    requires F[..d] == L1[..d] && FoundShape(L[d], F[d], |L[d - 1]|, |F[d - 1]|, e, r)
    requires a == L[d][e].second && b == ChildEnd(L[d], e, |L[d - 1]|) && 0 <= a <= b <= |L[d - 1]|
    requires |L1[d - 1]| == |L[d - 1]| + r && a <= b + r
    requires StreakAdded(L, L1, d - 1, a, b, r, origin, endX)
    ensures StreakAdded(L, F, d, lo, hi, k, origin, endX)
  {
    assert |F[d]| == |L[d]|;
    FoundEntries(L, L1, F, d, e, a, b, r);
    EntryGained(L, L1, F, d, e, a, b, r, origin, endX);
    SplicedGained(L, F, d, lo, hi, e, e + 1, k, StreakCells(origin, endX, d));
  }

  /** The cells of an entry whose child range lost the streak's cells below dimension d. */
  lemma EntryLost(L: seq<seq<Pair>>, L1: seq<seq<Pair>>, F: seq<seq<Pair>>, d: nat, e: int,
                  a: int, b: int, r: int, origin: seq<int>, endX: int)
    requires 0 < d < |L| == |L1| == |F| && d < |origin| && 0 <= e < |L[d]| && 0 <= e < |F[d]|
    requires a == L[d][e].second && b == ChildEnd(L[d], e, |L[d - 1]|) && 0 <= a <= b <= |L[d - 1]|
    requires L[d][e].first == origin[d] && 0 <= a <= b + r <= |L1[d - 1]|
    requires EntryCells(F, d, e) == Lift(StretchCells(L1, d - 1, a, b + r), origin[d])
    requires StretchCells(L1, d - 1, a, b + r) == StretchCells(L, d - 1, a, b) - StreakCells(origin, endX, d - 1)
    ensures StretchCells(F, d, e, e + 1) == StretchCells(L, d, e, e + 1) - StreakCells(origin, endX, d)
  {
    LiftMinus(StretchCells(L, d - 1, a, b), StreakCells(origin, endX, d - 1), origin[d]);
  }

  /** In a sorted stretch [lo, hi) of level d > 0 with entry e at the coordinate origin[d], the
      entries on either side of e hold no cell of the streak. */
  lemma ApartAround(L: seq<seq<Pair>>, d: nat, lo: int, hi: int, e: int, origin: seq<int>, endX: int)
    requires 0 < d < |L| && d < |origin| && SortedIn(L[d], lo, hi, false) && lo <= e < hi
    requires L[d][e].first == origin[d]
    ensures StretchCells(L, d, lo, e) !! StreakCells(origin, endX, d)
    ensures StretchCells(L, d, e + 1, hi) !! StreakCells(origin, endX, d)
  {
    forall j | lo <= j < e ensures L[d][j].first != origin[d] {
      assert Before(L[d][j], L[d][e], false);
    }
    forall j | e + 1 <= j < hi ensures L[d][j].first != origin[d] {
      assert Before(L[d][e], L[d][j], false);
    }
    StretchApart(L, d, lo, e, StreakCells(origin, endX, d - 1), origin[d]);
    StretchApart(L, d, e + 1, hi, StreakCells(origin, endX, d - 1), origin[d]);
  }

  /** Removal, entry e found and kept: the stretch [lo, hi) loses the streak's cells. */
  lemma FoundRemoved(L: seq<seq<Pair>>, L1: seq<seq<Pair>>, F: seq<seq<Pair>>, d: nat, lo: int, hi: int, k: int,
                     e: int, a: int, b: int, r: int, origin: seq<int>, endX: int)
    requires 0 < d < |L| == |L1| == |F| && d < |origin| && k == 0
    requires Partitions(L[d], |L[d - 1]|) && Partitions(F[d], |F[d - 1]|)
    requires 0 <= lo <= e < hi <= |L[d]| && L[d][e].first == origin[d]
    requires StretchCells(L, d, lo, e) !! StreakCells(origin, endX, d)
    requires StretchCells(L, d, e + 1, hi) !! StreakCells(origin, endX, d)
    requires F[..d] == L1[..d] && FoundShape(L[d], F[d], |L[d - 1]|, |F[d - 1]|, e, r)
    requires a == L[d][e].second && b == ChildEnd(L[d], e, |L[d - 1]|) && 0 <= a <= b <= |L[d - 1]|
    requires |L1[d - 1]| == |L[d - 1]| + r && a <= b + r
    requires StreakRemoved(L, L1, d - 1, a, b, r, origin, endX)
    ensures StreakRemoved(L, F, d, lo, hi, k, origin, endX)
  {
    assert |F[d]| == |L[d]|;
    FoundEntries(L, L1, F, d, e, a, b, r);
    EntryLost(L, L1, F, d, e, a, b, r, origin, endX);
    SplicedLost(L, F, d, lo, hi, e, e + 1, k, StreakCells(origin, endX, d));
  }

  /** Entry e of level d > 0 lost its whole child range [a, b) (so a == b + r) and was erased;
      F takes levels 0..d - 1 from L1 and moves the offsets after e by r. Every other entry keeps
      its cells. */
  lemma ErasedEntries(L: seq<seq<Pair>>, L1: seq<seq<Pair>>, F: seq<seq<Pair>>, d: nat,
                      e: int, a: int, b: int, r: int)
    requires 0 < d < |L| == |L1| == |F| && 0 <= e < |L[d]|
    requires Partitions(L[d], |L[d - 1]|) && Partitions(F[d], |F[d - 1]|)
    requires F[..d] == L1[..d] && ErasedShape(L[d], F[d], |L[d - 1]|, |F[d - 1]|, e, r)
    requires a == L[d][e].second && b == ChildEnd(L[d], e, |L[d - 1]|) && 0 <= a <= b <= |L[d - 1]|
    requires |L1[d - 1]| == |L[d - 1]| + r && a == b + r
    requires EntriesKept(L, L1, d - 1, 0, a, 0) && EntriesKept(L, L1, d - 1, b, |L[d - 1]|, b + r)
    ensures EntriesKept(L, F, d, 0, e, 0) && EntriesKept(L, F, d, e + 1, |L[d]|, e)
  {
    assert F[d - 1] == F[..d][d - 1] == L1[..d][d - 1] == L1[d - 1];
    MovedKept(L, L1, F, d, 0, e, 0, 0, 0, a);
    MovedKept(L, L1, F, d, e + 1, |L[d]|, e, r, b, |L[d - 1]|);
  }

  /** An entry whose child range lost every cell held only cells of the streak. */
  lemma EntryErased(L: seq<seq<Pair>>, L1: seq<seq<Pair>>, d: nat, e: int,
                    a: int, b: int, r: int, origin: seq<int>, endX: int)
    requires 0 < d < |L| == |L1| && d < |origin| && 0 <= e < |L[d]|
    requires a == L[d][e].second && b == ChildEnd(L[d], e, |L[d - 1]|) && 0 <= a <= b <= |L[d - 1]|
    requires L[d][e].first == origin[d] && a == b + r && a <= |L1[d - 1]|
    requires StretchCells(L1, d - 1, a, b + r) == StretchCells(L, d - 1, a, b) - StreakCells(origin, endX, d - 1)
    ensures StretchCells(L, d, e, e + 1) - StreakCells(origin, endX, d) == {}
  {
    LiftMinus(StretchCells(L, d - 1, a, b), StreakCells(origin, endX, d - 1), origin[d]);
  }

  /** Removal, entry e erased: the stretch [lo, hi) loses the streak's cells, which were all the
      cells of entry e. */
  lemma ErasedRemoved(L: seq<seq<Pair>>, L1: seq<seq<Pair>>, F: seq<seq<Pair>>, d: nat, lo: int, hi: int, k: int,
                      e: int, a: int, b: int, r: int, origin: seq<int>, endX: int)
    requires 0 < d < |L| == |L1| == |F| && d < |origin| && k == -1
    requires Partitions(L[d], |L[d - 1]|) && Partitions(F[d], |F[d - 1]|)
    requires 0 <= lo <= e < hi <= |L[d]| && L[d][e].first == origin[d]
    requires StretchCells(L, d, lo, e) !! StreakCells(origin, endX, d)
    requires StretchCells(L, d, e + 1, hi) !! StreakCells(origin, endX, d)
    requires F[..d] == L1[..d] && ErasedShape(L[d], F[d], |L[d - 1]|, |F[d - 1]|, e, r)
    requires a == L[d][e].second && b == ChildEnd(L[d], e, |L[d - 1]|) && 0 <= a <= b <= |L[d - 1]|
    requires |L1[d - 1]| == |L[d - 1]| + r && a == b + r
    requires StreakRemoved(L, L1, d - 1, a, b, r, origin, endX)
    ensures StreakRemoved(L, F, d, lo, hi, k, origin, endX)
  {
    assert |F[d]| == |L[d]| - 1;
    ErasedEntries(L, L1, F, d, e, a, b, r);
    EntryErased(L, L1, d, e, a, b, r, origin, endX);
    SplicedLost(L, F, d, lo, hi, e, e + 1, k, StreakCells(origin, endX, d));
  }

  /** A new entry went in at index i of level d > 0 (L1), its empty child range at nls of level
      d - 1 grew to [nls, nls + r) (L2), and F takes levels 0..d - 1 from L2 and moves the
      offsets after the new entry by r. Every old entry keeps its cells. */
  lemma AddedEntries(L: seq<seq<Pair>>, L1: seq<seq<Pair>>, L2: seq<seq<Pair>>, F: seq<seq<Pair>>, d: nat,
                     i: int, c: int, nls: int, r: int)
    requires 0 < d < |L| == |L1| == |L2| == |F| && 0 <= i <= |L[d]|
    requires Partitions(L[d], |L[d - 1]|) && Partitions(F[d], |F[d - 1]|)
    requires L1[..d] == L[..d] && |L1[d - 1]| == |L[d - 1]|
    requires F[..d] == L2[..d] && AddedShape(L[d], F[d], |L[d - 1]|, |F[d - 1]|, i, c, nls, r)
    requires nls == (if i != |L[d]| then L[d][i].second else |L[d - 1]|) && 0 <= nls <= |L[d - 1]|
    requires |L2[d - 1]| == |L1[d - 1]| + r && 0 <= r
    requires EntriesKept(L1, L2, d - 1, 0, nls, 0) && EntriesKept(L1, L2, d - 1, nls, |L1[d - 1]|, nls + r)
    ensures EntriesKept(L, F, d, 0, i, 0) && EntriesKept(L, F, d, i, |L[d]|, i + 1)
  {
    assert L1[d - 1] == L1[..d][d - 1] == L[..d][d - 1] == L[d - 1];
    assert F[d - 1] == F[..d][d - 1] == L2[..d][d - 1] == L2[d - 1];
    KeptBelow(L1, L, L2, F, d - 1, 0, nls, 0);
    KeptBelow(L1, L, L2, F, d - 1, nls, |L1[d - 1]|, nls + r);
    KeptLevel(L, F, d, 0, i, 0, 0, 0, nls);
    KeptLevel(L, F, d, i, |L[d]|, i + 1, r, nls, |L[d - 1]|);
  }

  /** The new entry holds exactly the streak's cells. */
  lemma EntryAdded(L: seq<seq<Pair>>, L1: seq<seq<Pair>>, L2: seq<seq<Pair>>, F: seq<seq<Pair>>, d: nat,
                   i: int, nls: int, r: int, origin: seq<int>, endX: int)
    requires 0 < d < |L| == |L1| == |L2| == |F| && d < |origin| && 0 <= i <= |L[d]|
    requires F[..d] == L2[..d] && AddedShape(L[d], F[d], |L[d - 1]|, |F[d - 1]|, i, origin[d], nls, r)
    requires nls == (if i != |L[d]| then L[d][i].second else |L[d - 1]|)
    requires 0 <= nls <= |L1[d - 1]| && 0 <= r && |L2[d - 1]| == |L[d - 1]| + r && nls <= |L[d - 1]|
    requires StretchCells(L2, d - 1, nls, nls + r) == StretchCells(L1, d - 1, nls, nls) + StreakCells(origin, endX, d - 1)
    ensures StretchCells(F, d, i, i + 1) == StreakCells(origin, endX, d)
  {
    assert F[d - 1] == F[..d][d - 1] == L2[..d][d - 1] == L2[d - 1];
    StretchBelow(F, L2, d - 1, nls, nls + r);
  }

  /** Insertion, new entry at index i: the stretch [lo, hi) gains the streak's cells. */
  lemma AddedInserted(L: seq<seq<Pair>>, L1: seq<seq<Pair>>, L2: seq<seq<Pair>>, F: seq<seq<Pair>>, d: nat,
                      lo: int, hi: int, k: int, i: int, nls: int, r: int, origin: seq<int>, endX: int)
    requires 0 < d < |L| == |L1| == |L2| == |F| && d < |origin| && k == 1
    requires Partitions(L[d], |L[d - 1]|) && Partitions(F[d], |F[d - 1]|)
    requires 0 <= lo <= i <= hi <= |L[d]|
    requires L1[..d] == L[..d] && |L1[d - 1]| == |L[d - 1]|
    requires F[..d] == L2[..d] && AddedShape(L[d], F[d], |L[d - 1]|, |F[d - 1]|, i, origin[d], nls, r)
    requires nls == (if i != |L[d]| then L[d][i].second else |L[d - 1]|) && 0 <= nls <= |L[d - 1]|
    requires |L2[d - 1]| == |L1[d - 1]| + r && 0 <= r
    requires StreakAdded(L1, L2, d - 1, nls, nls, r, origin, endX)
    ensures StreakAdded(L, F, d, lo, hi, k, origin, endX)
  {
    assert |F[d]| == |L[d]| + 1;
    AddedEntries(L, L1, L2, F, d, i, origin[d], nls, r);
    EntryAdded(L, L1, L2, F, d, i, nls, r, origin, endX);
    SplicedGained(L, F, d, lo, hi, i, i, k, StreakCells(origin, endX, d));
  }

  /** Removal where no entry of [lo, hi) has the coordinate origin[d]: nothing to remove. */
  lemma AbsentRemoved(L: seq<seq<Pair>>, d: nat, lo: int, hi: int, k: int, origin: seq<int>, endX: int)
    requires 0 < d < |L| && d < |origin| && 0 <= lo <= hi <= |L[d]| && k == 0
    requires forall j :: lo <= j < hi ==> L[d][j].first != origin[d]
    ensures StreakRemoved(L, L, d, lo, hi, k, origin, endX)
  {
    StretchApart(L, d, lo, hi, StreakCells(origin, endX, d - 1), origin[d]);
  }

  /** A streak that ends where it starts has no cells. */
  lemma {:induction false} StreakEmpty(origin: seq<int>, endX: int, d: nat)
    requires d < |origin| && endX <= origin[0]
    ensures StreakCells(origin, endX, d) == {}
  {
    if d == 0 {
      assert Cells(Pair(origin[0], endX)) == {};
    } else {
      StreakEmpty(origin, endX, d - 1);
    }
  }
}
