// NewRegion: a set of grid cells in `dim` dimensions, stored as a stack of
// sorted index levels. Level 0 holds runs [start, end) of x-coordinates;
// level d > 0 holds (coordinate of dimension d, offset of its first child in
// level d - 1) pairs. Insertion and removal descend from the top level to
// level 0 and then fix the offsets on the way back up.

module NewRegions {
  import opened NewRegionLevels
  import opened StreakChains
  import opened RegionCells

  /** A streak: a run of cells from `origin` (whose component 0 is the start x) up to `endX`
      along x, with `origin[d]` the coordinate in dimension d. */
  datatype Streak = Streak(origin: seq<int>, endX: int)

  /** The coordinate of the first entry of every level (`initBegin`). */
  function FirstCoordinates(L: seq<seq<Pair>>): (c: seq<int>)
    requires forall k :: 0 <= k < |L| ==> |L[k]| > 0
    ensures |c| == |L| && forall k :: 0 <= k < |L| ==> c[k] == L[k][0].first
  {
    seq(|L|, k requires 0 <= k < |L| && |L[k]| > 0 => L[k][0].first)
  }

  /** The streak a chain of positions names: the coordinates of its entries, and the end of its
      level-0 run. */
  ghost function StreakOf(L: seq<seq<Pair>>, its: seq<int>): Streak
    requires ChainOk(L, its)
  {
    Streak(Origins(L, its), L[0][its[0]].second)
  }

  /** `std::upper_bound` on `.first` (`PairCompareFirst`): the first index in [lo, hi) whose
      coordinate exceeds c, found by bisection. */
  method UpperBound(v: seq<Pair>, lo: int, hi: int, c: int) returns (i: int)
    requires FirstsSorted(v, lo, hi)
    ensures lo <= i <= hi
    ensures forall k :: lo <= k < i ==> v[k].first <= c
    ensures forall k :: i <= k < hi ==> c < v[k].first
    ensures i == FirstAbove(v, lo, hi, c)
  {
    var a, b := lo, hi;
    while a < b
      invariant lo <= a <= b <= hi
      invariant forall k :: lo <= k < a ==> v[k].first <= c
      invariant forall k :: b <= k < hi ==> c < v[k].first
    {
      var m := (a + b) / 2;
      if c < v[m].first {
        assert forall k :: m < k < hi ==> NotAfter(v[m], v[k]);
        b := m;
      } else {
        assert forall k :: lo <= k < m ==> NotAfter(v[k], v[m]);
        a := m + 1;
      }
    }
    i := a;
    FirstAboveIs(v, lo, hi, c, i);
  }

  class NewRegion {
    const dim: nat
    var indices: seq<seq<Pair>>

    /** All levels are consistent with the ones below them, and the top level is ordered. */
    ghost predicate Valid()
      reads this
    {
      dim >= 1 && |indices| == dim && LevelsValid(indices, dim - 1) &&
      SortedIn(indices[dim - 1], 0, |indices[dim - 1]|, dim == 1)
    }

    /** A new region holds no cells: every level is empty. */
    constructor (dim: nat)
      requires dim >= 1
      ensures this.dim == dim && Valid()
      ensures indices == seq(dim, k => [])
    {
      this.dim := dim;
      indices := seq(dim, k => []);
      new;
      EmptyLevelsValid(indices, dim - 1);
    }

    /** `operator<<`: adds the cells of the streak `s`; a streak without cells changes nothing. */
    method Insert(s: Streak)
      requires Valid() && |s.origin| == dim
      modifies this
      ensures Valid()
      ensures s.endX <= s.origin[0] ==> indices == old(indices)
      ensures RegionCellsOf(indices) == RegionCellsOf(old(indices)) + StreakCells(s.origin, s.endX, dim - 1)
      ensures dim == 1 ==>
        (Covered(indices[0], 0, |indices[0]|) ==
         Covered(old(indices)[0], 0, |old(indices)[0]|) + Cells(Pair(s.origin[0], s.endX)))
    {
      if s.endX <= s.origin[0] {
        assert Cells(Pair(s.origin[0], s.endX)) == {};
        StreakEmpty(s.origin, s.endX, dim - 1);
        return;
      }
      var ins := InsertAt(dim - 1, s, 0, |indices[dim - 1]|);
    }

    /** `operator>>`: removes the cells of the streak `s`; a streak without cells, or an empty
        region, changes nothing. */
    method Remove(s: Streak)
      requires Valid() && |s.origin| == dim
      modifies this
      ensures Valid()
      ensures s.endX <= s.origin[0] || old(indices)[0] == [] ==> indices == old(indices)
      ensures RegionCellsOf(indices) == RegionCellsOf(old(indices)) - StreakCells(s.origin, s.endX, dim - 1)
      ensures dim == 1 ==>
        (Covered(indices[0], 0, |indices[0]|) ==
         Covered(old(indices)[0], 0, |old(indices)[0]|) - Cells(Pair(s.origin[0], s.endX)))
    {
      if s.endX <= s.origin[0] || Empty() {
        if s.endX <= s.origin[0] {
          assert Cells(Pair(s.origin[0], s.endX)) == {};
          StreakEmpty(s.origin, s.endX, dim - 1);
        } else {
          assert indices[dim - 1] == [];
        }
        return;
      }
      var ins := RemoveAt(dim - 1, s, 0, |indices[dim - 1]|);
    }

    /** `empty`: the region holds no cells exactly when every level is empty, which the region
        tells from level 0 alone. */
    function Empty(): (b: bool)
      reads this
      requires Valid()
      ensures b <==> forall k :: 0 <= k < dim ==> indices[k] == []
    {
      BottomEmpty(indices, dim - 1);
      |indices[0]| == 0
    }

    /** `size`: the number of runs in level 0, which is zero exactly for the empty region. */
    function Size(): (n: nat)
      reads this
      requires Valid()
      ensures n == 0 <==> Empty()
    {
      |indices[0]|
    }

    /** `beginStreak`: an iterator at the first entry of every level. For a region with cells it
        names the first streak; for an empty region it is the end iterator. */
    method BeginStreak() returns (it: StreakIterator)
      requires Valid()
      ensures fresh(it) && it.region == this
      ensures Empty() ==> it.AtEnd()
      ensures !Empty() ==> it.AtStreak() && it.its[0] == 0
    {
      it := new StreakIterator(this);
      it.its := seq(dim, k => 0);
      if |indices[0]| > 0 {
        FirstChain(indices);
        LevelsNonEmpty(indices, dim);
        it.streak := Streak(FirstCoordinates(indices), indices[0][0].second);
        assert Origins(indices, it.its) == FirstCoordinates(indices);
      } else {
        BottomEmpty(indices, dim - 1);
      }
    }

    /** `endStreak`: an iterator with every level at its end. */
    method EndStreak() returns (it: StreakIterator)
      requires Valid()
      ensures fresh(it) && it.region == this && it.AtEnd()
    {
      it := new StreakIterator(this);
      it.its := Ends(indices);
    }

    /** `incRemainder`: moves the offsets of entries [start, end) of level d by `inserts`. */
    method IncRemainder(d: nat, start: int, end: int, inserts: int)
      requires d < |indices| && 0 <= start <= end <= |indices[d]|
      modifies this
      ensures indices == old(indices)[d := old(indices[d])[..start] + Shift(old(indices[d])[start..end], inserts) + old(indices[d])[end..]]
    {
      ghost var o := indices[d];
      if inserts == 0 {
        ShiftZero(o[start..end]);
        assert o == o[..start] + o[start..end] + o[end..];
        return;
      }
      var v := indices[d];
      var k := start;
      while k != end
        invariant start <= k <= end && |v| == |o|
        invariant forall x :: 0 <= x < |v| ==>
          v[x] == (if start <= x < k then Pair(o[x].first, o[x].second + inserts) else o[x])
      {
        v := v[k := Pair(v[k].first, v[k].second + inserts)];
        k := k + 1;
      }
      assert v == o[..start] + Shift(o[start..end], inserts) + o[end..];
      indices := indices[d := v];
    }

    /** The level-0 step of insertion (`NewRegionInsertHelper<0>`): puts the run `streak` into
        the stretch [lo, hi) of level 0. Returns the change in the number of runs. */
    method InsertRun(lo: int, hi: int, streak: Pair) returns (inserts: int)
      requires |indices| >= 1 && RunsNonEmpty(indices[0]) && SortedIn(indices[0], lo, hi, true)
      requires streak.first < streak.second
      modifies this
      ensures |indices| == old(|indices|) && indices == old(indices)[0 := indices[0]]
      ensures inserts <= 1 && lo < hi + inserts
      ensures Spliced(old(indices[0]), indices[0], lo, hi, inserts, 0)
      ensures RunsNonEmpty(indices[0]) && SortedIn(indices[0], lo, hi + inserts, true)
      ensures Covered(indices[0], lo, hi + inserts) == Covered(old(indices[0]), lo, hi) + Cells(streak)
    {
      var v;
      v, inserts := FuseRun(indices[0], lo, hi, streak);
      indices := indices[0 := v];
    }

    /** The level-0 step of removal (`NewRegionRemoveHelper<0>`): takes the cells of `cut` out of
        the stretch [lo, hi) of level 0. Returns the change in the number of runs. */
    method RemoveRun(lo: int, hi: int, cut: Pair) returns (inserts: int)
      requires |indices| >= 1 && RunsNonEmpty(indices[0]) && SortedIn(indices[0], lo, hi, true)
      requires cut.first < cut.second
      modifies this
      ensures |indices| == old(|indices|) && indices == old(indices)[0 := indices[0]]
      ensures lo <= hi + inserts
      ensures Spliced(old(indices[0]), indices[0], lo, hi, inserts, 0)
      ensures RunsNonEmpty(indices[0]) && SortedIn(indices[0], lo, hi + inserts, true)
      ensures Covered(indices[0], lo, hi + inserts) == Covered(old(indices[0]), lo, hi) - Cells(cut)
    {
      var v;
      v, inserts := CutRun(indices[0], lo, hi, cut);
      indices := indices[0 := v];
    }

    /** `NewRegionInsertHelper<d>`: inserts the streak `s` into the entries [lo, hi) of level d
        and the levels below. Above level 0 it returns 1 when it added an entry for the coordinate
        `s.origin[d]` and 0 when one was there; level 0 returns the change in runs. */
    method InsertAt(d: nat, s: Streak, lo: int, hi: int) returns (ins: int)
      requires |indices| == dim && d < dim && |s.origin| == dim && s.origin[0] < s.endX
      requires LevelsValid(indices, d) && SortedIn(indices[d], lo, hi, d == 0)
      modifies this
      decreases d, 1
      ensures |indices| == dim && indices[d + 1..] == old(indices)[d + 1..]
      ensures LevelsValid(indices, d) && SortedIn(indices[d], lo, hi + ins, d == 0)
      ensures Spliced(old(indices)[d], indices[d], lo, hi, ins, Growth(old(indices), indices, d))
      ensures lo < hi + ins && ins <= 1 && (d > 0 ==> 0 <= ins)
      ensures d > 0 ==> (ins == 0 <==> exists j :: lo <= j < hi && old(indices)[d][j].first == s.origin[d])
      ensures d == 0 ==>
        Covered(indices[0], lo, hi + ins) == Covered(old(indices)[0], lo, hi) + Cells(Pair(s.origin[0], s.endX))
      ensures StreakAdded(old(indices), indices, d, lo, hi, ins, s.origin, s.endX)
    {
      if d == 0 {
        ghost var L := indices;
        ins := InsertRun(lo, hi, Pair(s.origin[0], s.endX));
        ZeroInserted(L, indices, lo, hi, ins, s.origin, s.endX);
        return;
      }
      ghost var L: seq<seq<Pair>> := indices;
      var c := s.origin[d];
      SortedFirsts(indices[d], lo, hi, false);
      var i := UpperBound(indices[d], lo, hi, c);
      if i != lo && indices[d][i - 1].first == c {
        ins := InsertBelow(d, s, lo, hi, i - 1);
        assert L[d][i - 1].first == c;
      } else {
        forall j | lo <= j < i ensures indices[d][j].first < c {
          if j < i - 1 {
            assert Before(indices[d][j], indices[d][i - 1], false);
          }
        }
        assert forall j :: lo <= j < hi ==> L[d][j].first != c;
        ins := InsertEntry(d, s, lo, hi, i);
      }
    }

    /** The coordinate of level d is present at entry e: descend into its child range, then move
        the offsets of the later entries by what level d - 1 gained. */
    method InsertBelow(d: nat, s: Streak, lo: int, hi: int, e: int) returns (ins: int)
      requires 0 < d < dim == |indices| && |s.origin| == dim && s.origin[0] < s.endX
      requires LevelsValid(indices, d) && SortedIn(indices[d], lo, hi, false)
      requires lo <= e < hi && indices[d][e].first == s.origin[d]
      modifies this
      decreases d, 0
      ensures |indices| == dim && indices[d + 1..] == old(indices)[d + 1..]
      ensures LevelsValid(indices, d) && SortedIn(indices[d], lo, hi, false)
      ensures Spliced(old(indices)[d], indices[d], lo, hi, 0, Growth(old(indices), indices, d))
      ensures indices[d] == old(indices)[d][..e + 1] + Shift(old(indices)[d][e + 1..], Growth(old(indices), indices, d))
      ensures ins == 0
      ensures StreakAdded(old(indices), indices, d, lo, hi, ins, s.origin, s.endX)
    {
      ghost var L: seq<seq<Pair>> := indices;
      var nextLevelStart := indices[d][e].second;
      var nextLevelEnd := ChildEnd(indices[d], e, |indices[d - 1]|);
      ChildRangeOrdered(L, d, e);
      var inserts := InsertAt(d - 1, s, nextLevelStart, nextLevelEnd);
      ghost var L1 := indices;
      assert L1[d] == L1[d..][0] == L[d];
      IncRemainder(d, e + 1, |indices[d]|, inserts);
      FoundStep(L, L1, indices, d, lo, hi, e, inserts);
      FoundShaped(L[d], indices[d], |L[d - 1]|, |indices[d - 1]|, e, inserts);
      assert LevelOk(L, d) && LevelOk(indices, d);
      ins := 0;
      FoundInserted(L, L1, indices, d, lo, hi, ins, e, nextLevelStart, nextLevelEnd, inserts, s.origin, s.endX);
    }

    /** The coordinate of level d is missing: a new entry goes in at index i, its child range is
        created empty at its place in level d - 1 and filled by the descent, and the offsets of the
        later entries move by what level d - 1 gained. */
    method InsertEntry(d: nat, s: Streak, lo: int, hi: int, i: int) returns (ins: int)
      requires 0 < d < dim == |indices| && |s.origin| == dim && s.origin[0] < s.endX
      requires LevelsValid(indices, d) && SortedIn(indices[d], lo, hi, false) && lo <= i <= hi
      requires forall j :: lo <= j < i ==> indices[d][j].first < s.origin[d]
      requires forall j :: i <= j < hi ==> s.origin[d] < indices[d][j].first
      modifies this
      decreases d, 0
      ensures |indices| == dim && indices[d + 1..] == old(indices)[d + 1..]
      ensures LevelsValid(indices, d) && SortedIn(indices[d], lo, hi + 1, false)
      ensures Spliced(old(indices)[d], indices[d], lo, hi, 1, Growth(old(indices), indices, d))
      ensures indices[d] == old(indices)[d][..i] +
        [Pair(s.origin[d], if i != |old(indices)[d]| then old(indices)[d][i].second else |old(indices)[d - 1]|)] +
        Shift(old(indices)[d][i..], Growth(old(indices), indices, d))
      ensures ins == 1
      ensures StreakAdded(old(indices), indices, d, lo, hi, ins, s.origin, s.endX)
    {
      ghost var L: seq<seq<Pair>> := indices;
      var c := s.origin[d];
      var nextLevelStart := if i != |indices[d]| then indices[d][i].second else |indices[d - 1]|;
      ChildStartInRange(L, d, i);
      LevelsValidUpdate(L, d - 1, d, indices[d][..i] + [Pair(c, nextLevelStart)] + indices[d][i..]);
      indices := indices[d := indices[d][..i] + [Pair(c, nextLevelStart)] + indices[d][i..]];
      ghost var L1 := indices;
      var inserts := InsertAt(d - 1, s, nextLevelStart, nextLevelStart);
      ghost var L2 := indices;
      assert L2[d] == L2[d..][0] == L1[d];
      IncRemainder(d, i + 1, |indices[d]|, inserts);
      AddedStep(L, L1, L2, indices, d, lo, hi, i, c, nextLevelStart, inserts);
      AddedShaped(L[d], indices[d], |L[d - 1]|, |indices[d - 1]|, i, c, nextLevelStart, inserts);
      assert L1[..d] == L[..d];
      assert LevelOk(L, d) && LevelOk(indices, d);
      ins := 1;
      AddedInserted(L, L1, L2, indices, d, lo, hi, ins, i, nextLevelStart, inserts, s.origin, s.endX);
    }

    /** `NewRegionRemoveHelper<d>`: removes the streak `s` from the entries [lo, hi) of level d
        and the levels below. Above level 0 it returns -1 when the entry for `s.origin[d]` lost
        its last child and was erased, else 0; level 0 returns the change in runs. */
    method RemoveAt(d: nat, s: Streak, lo: int, hi: int) returns (ins: int)
      requires |indices| == dim && d < dim && |s.origin| == dim && s.origin[0] < s.endX
      requires LevelsValid(indices, d) && SortedIn(indices[d], lo, hi, d == 0)
      modifies this
      decreases d, 1
      ensures |indices| == dim && indices[d + 1..] == old(indices)[d + 1..]
      ensures LevelsValid(indices, d) && SortedIn(indices[d], lo, hi + ins, d == 0)
      ensures Spliced(old(indices)[d], indices[d], lo, hi, ins, Growth(old(indices), indices, d))
      ensures lo <= hi + ins && (d > 0 ==> -1 <= ins <= 0)
      ensures d > 0 && (forall j :: lo <= j < hi ==> old(indices)[d][j].first != s.origin[d]) ==>
        ins == 0 && indices == old(indices)
      ensures d == 0 ==>
        Covered(indices[0], lo, hi + ins) == Covered(old(indices)[0], lo, hi) - Cells(Pair(s.origin[0], s.endX))
      ensures StreakRemoved(old(indices), indices, d, lo, hi, ins, s.origin, s.endX)
    {
      if d == 0 {
        ghost var L := indices;
        ins := RemoveRun(lo, hi, Pair(s.origin[0], s.endX));
        ZeroRemoved(L, indices, lo, hi, ins, s.origin, s.endX);
        return;
      }
      var c := s.origin[d];
      SortedFirsts(indices[d], lo, hi, false);
      var i := UpperBound(indices[d], lo, hi, c);
      if i == lo || indices[d][i - 1].first != c {
        // the coordinate is absent: nothing to remove
        forall j | lo <= j < hi ensures indices[d][j].first != c {
          if j < i - 1 {
            assert Before(indices[d][j], indices[d][i - 1], false);
          }
        }
        ShiftZero(indices[d][hi..]);
        ins := 0;
        AbsentRemoved(indices, d, lo, hi, ins, s.origin, s.endX);
        return;
      }
      ins := RemoveBelow(d, s, lo, hi, i - 1);
    }

    /** The coordinate of level d is present at entry e: descend into its child range; erase the
        entry when that range became empty, and move the offsets of the later entries by what
        level d - 1 lost. */
    method RemoveBelow(d: nat, s: Streak, lo: int, hi: int, e: int) returns (ins: int)
      requires 0 < d < dim == |indices| && |s.origin| == dim && s.origin[0] < s.endX
      requires LevelsValid(indices, d) && SortedIn(indices[d], lo, hi, false)
      requires lo <= e < hi && indices[d][e].first == s.origin[d]
      modifies this
      decreases d, 0
      ensures |indices| == dim && indices[d + 1..] == old(indices)[d + 1..]
      ensures LevelsValid(indices, d) && SortedIn(indices[d], lo, hi + ins, false)
      ensures Spliced(old(indices)[d], indices[d], lo, hi, ins, Growth(old(indices), indices, d))
      ensures -1 <= ins <= 0
      ensures ins == -1 <==>
        old(indices)[d][e].second - ChildEnd(old(indices)[d], e, |old(indices)[d - 1]|) == Growth(old(indices), indices, d)
      ensures ins == -1 ==> indices[d] == old(indices)[d][..e] + Shift(old(indices)[d][e + 1..], Growth(old(indices), indices, d))
      ensures ins == 0 ==> indices[d] == old(indices)[d][..e + 1] + Shift(old(indices)[d][e + 1..], Growth(old(indices), indices, d))
      ensures StreakRemoved(old(indices), indices, d, lo, hi, ins, s.origin, s.endX)
    {
      ghost var L: seq<seq<Pair>> := indices;
      var nextLevelStart := indices[d][e].second;
      var nextLevelEnd := ChildEnd(indices[d], e, |indices[d - 1]|);
      ChildRangeOrdered(L, d, e);
      ApartAround(L, d, lo, hi, e, s.origin, s.endX);
      var inserts := RemoveAt(d - 1, s, nextLevelStart, nextLevelEnd);
      ghost var L1 := indices;
      assert L1[d] == L1[d..][0] == L[d];
      if nextLevelStart - nextLevelEnd == inserts {
        indices := indices[d := indices[d][..e] + indices[d][e + 1..]];
        ghost var L2 := indices;
        IncRemainder(d, e, |indices[d]|, inserts);
        ErasedStep(L, L1, L2, indices, d, lo, hi, e, inserts);
        ErasedShaped(L[d], indices[d], |L[d - 1]|, |indices[d - 1]|, e, inserts);
        assert LevelOk(L, d) && LevelOk(indices, d);
        ins := -1;
        ErasedRemoved(L, L1, indices, d, lo, hi, ins, e, nextLevelStart, nextLevelEnd, inserts, s.origin, s.endX);
      } else {
        IncRemainder(d, e + 1, |indices[d]|, inserts);
        FoundStep(L, L1, indices, d, lo, hi, e, inserts);
        FoundShaped(L[d], indices[d], |L[d - 1]|, |indices[d - 1]|, e, inserts);
        assert LevelOk(L, d) && LevelOk(indices, d);
        ins := 0;
        FoundRemoved(L, L1, indices, d, lo, hi, ins, e, nextLevelStart, nextLevelEnd, inserts, s.origin, s.endX);
      }
    }
  }

  /** `NewRegion::StreakIterator`: one position per level (`iterators`; the length of a level
      stands for its end), the streak those positions name, and the region walked. */
  class StreakIterator {
    const region: NewRegion
    var its: seq<int>
    var streak: Streak

    /** The iterator names the streak of a chain of positions through the region. */
    ghost predicate AtStreak()
      reads this, region
    {
      region.Valid() && ChainOk(region.indices, its) && streak == StreakOf(region.indices, its)
    }

    /** The iterator is past the last streak: every level is at its end. */
    ghost predicate AtEnd()
      reads this, region
    {
      region.Valid() && its == Ends(region.indices)
    }

    constructor (region: NewRegion)
      ensures this.region == region && its == [] && streak == Streak([], 0)
    {
      this.region := region;
      its := [];
      streak := Streak([], 0);
    }

    /** `operator*`: the streak the iterator names. */
    function Current(): (s: Streak)
      reads this, region
      requires AtStreak()
      ensures s == StreakOf(region.indices, its)
      ensures |s.origin| == region.dim && s.origin[0] < s.endX
      ensures forall k :: 0 <= k < region.dim ==> s.origin[k] == region.indices[k][its[k]].first
    {
      streak
    }

    /** `operator==` (`compareIterators`): compares the positions level by level from the top. */
    function Equal(other: StreakIterator): (r: bool)
      reads this, other
      ensures |its| == |other.its| ==> (r <==> its == other.its)
    {
      |its| == |other.its| && SamePositions(its, other.its, |its|)
    }

    /** `operator++`: steps level 0 to its next run, then, level by level, steps the owner up one
        entry whenever the position below has reached the end of the owner's child range. The
        streak that follows comes after the old one in lexicographic order; past the last run,
        every level is put at its end. */
    method Next()
      requires AtStreak()
      modifies this
      ensures old(its[0]) + 1 < |region.indices[0]| ==>
        AtStreak() && its[0] == old(its[0]) + 1 && LexLess(old(streak).origin, streak.origin, region.dim)
      ensures old(its[0]) + 1 == |region.indices[0]| ==> AtEnd() && streak == old(streak)
    {
      var L: seq<seq<Pair>> := region.indices;
      var v := its;
      var next := v[0] + 1;
      if next == |L[0]| {
        v := v[0 := next];
        var i := 1;
        while i < region.dim
          invariant 1 <= i <= region.dim && |v| == region.dim && v[0] == |L[0]|
          invariant forall k :: 1 <= k < i ==> v[k] == |L[k]|
        {
          v := v[i := |L[i]|];
          i := i + 1;
        }
        its := v;
        return;
      }
      ghost var before := v;
      v := v[0 := next];
      var org := streak.origin[0 := L[0][next].first];
      var endX := L[0][next].second;
      var i := 1;
      while i < region.dim
        invariant NextState(L, before, v, org, i)
      {
        var nextEnd := ChildEnd(L[i], v[i], |L[i - 1]|);
        if v[i - 1] != nextEnd {
          break;
        }
        NextStep(L, before, v, org, i);
        var up := v[i] + 1;
        v := v[i := up];
        org := org[i := L[i][up].first];
        i := i + 1;
      }
      NextDone(L, before, v, org, i);
      its := v;
      streak := Streak(org, endX);
    }
  }

  /** Inside `operator++` at level i: levels below i hold the stepped chain and its coordinates,
      levels from i on still hold the old chain, and level i - 1 has moved one entry on. */
  ghost predicate NextState(L: seq<seq<Pair>>, before: seq<int>, v: seq<int>, org: seq<int>, i: int)
  {
    ChainOk(L, before) && 1 <= i <= |L| && ChainUpTo(L, v, i) &&
    v[0] == before[0] + 1 && v[i - 1] == before[i - 1] + 1 &&
    (forall k :: i <= k < |L| ==> v[k] == before[k]) &&
    |org| == |L| && (forall k :: 0 <= k < |L| ==> 0 <= v[k] < |L[k]| && org[k] == L[k][v[k]].first)
  }

  /** The position at level i - 1 reached the end of its owner's child range: the owner steps on. */
  lemma NextStep(L: seq<seq<Pair>>, before: seq<int>, v: seq<int>, org: seq<int>, i: int)
    requires NextState(L, before, v, org, i) && i < |L| && LevelsValid(L, |L| - 1)
    requires v[i - 1] == ChildEnd(L[i], v[i], |L[i - 1]|)
    ensures v[i] + 1 < |L[i]|
    ensures NextState(L, before, v[i := v[i] + 1], org[i := L[i][v[i] + 1].first], i + 1)
  {
    NextOwner(L, i, v[i]);
    StepChain(L, v, i);
  }

  /** Stepping the entry at level i to the one that owns the position below extends the chain
      through level i. */
  lemma StepChain(L: seq<seq<Pair>>, v: seq<int>, i: int)
    requires ChainUpTo(L, v, i) && 0 < i < |L| && 0 <= v[i] && v[i] + 1 < |L[i]|
    requires L[i][v[i] + 1].second == v[i - 1] < ChildEnd(L[i], v[i] + 1, |L[i - 1]|)
    ensures ChainUpTo(L, v[i := v[i] + 1], i + 1)
  {
    var v' := v[i := v[i] + 1];
    forall k | 0 < k < i + 1 ensures L[k][v'[k]].second <= v'[k - 1] < ChildEnd(L[k], v'[k], |L[k - 1]|) {
      if k < i {
        assert v'[k] == v[k] && v'[k - 1] == v[k - 1];
      }
    }
  }

  /** When `operator++` stops, the positions form the chain after the old one, with its coordinates,
      which come after the old ones in lexicographic order. */
  lemma NextDone(L: seq<seq<Pair>>, before: seq<int>, v: seq<int>, org: seq<int>, i: int)
    requires NextState(L, before, v, org, i)
    requires LevelsValid(L, |L| - 1) && SortedIn(L[|L| - 1], 0, |L[|L| - 1]|, |L| == 1)
    requires i == |L| || v[i - 1] != ChildEnd(L[i], v[i], |L[i - 1]|)
    ensures ChainOk(L, v) && v[0] == before[0] + 1 && Origins(L, v) == org
    ensures LexLess(Origins(L, before), org, |L|)
  {
    NextChain(L, before, v, org, i);
    ChainOrder(L, before, v);
  }

  /** Where `operator++` stops, the old owners still own the stepped positions below them. */
  lemma NextChain(L: seq<seq<Pair>>, before: seq<int>, v: seq<int>, org: seq<int>, i: int)
    requires NextState(L, before, v, org, i)
    requires i == |L| || v[i - 1] != ChildEnd(L[i], v[i], |L[i - 1]|)
    ensures ChainOk(L, v)
  {
    forall k | 0 < k < |L| ensures L[k][v[k]].second <= v[k - 1] < ChildEnd(L[k], v[k], |L[k - 1]|) {
      if k > i {
        assert v[k - 1] == before[k - 1] && v[k] == before[k];
      }
    }
  }

  /** Two iterators over one region that name streaks are equal exactly when they stand on the
      same level-0 run: a chain is fixed by its level-0 entry. */
  lemma EqualIffSameRun(a: StreakIterator, b: StreakIterator)
    requires a.AtStreak() && b.AtStreak() && a.region == b.region
    ensures a.Equal(b) <==> a.its[0] == b.its[0]
  {
    if a.its[0] == b.its[0] {
      ChainUnique(a.region.indices, a.its, b.its);
    }
  }

  /** An iterator that names a streak is not the end iterator. */
  lemma StreakNotEnd(a: StreakIterator, e: StreakIterator)
    requires a.AtStreak() && e.AtEnd() && a.region == e.region
    ensures !a.Equal(e)
  {
    assert a.its[0] < |a.region.indices[0]| == e.its[0];
  }

  /** `compareIterators`: positions a and b agree on levels n - 1 down to 0. */
  predicate SamePositions(a: seq<int>, b: seq<int>, n: nat)
    requires n <= |a| && n <= |b|
    ensures SamePositions(a, b, n) <==> a[..n] == b[..n]
  {
    n == 0 || (a[n - 1] == b[n - 1] && SamePositions(a, b, n - 1))
  }

  /** The loop of the level-0 insertion, with the corrected cursor advance: puts the run `streak`
      into the stretch [lo, hi) of the level-0 runs `o`, fusing it with every run it overlaps or
      touches. Returns the new level and the change in the number of runs. */
  method FuseRun(o: seq<Pair>, lo: int, hi: int, streak: Pair) returns (v: seq<Pair>, inserts: int)
    requires RunsNonEmpty(o) && SortedIn(o, lo, hi, true)
    requires streak.first < streak.second
    ensures inserts <= 1 && lo < hi + inserts
    ensures Spliced(o, v, lo, hi, inserts, 0)
    ensures RunsNonEmpty(v) && SortedIn(v, lo, hi + inserts, true)
    ensures CoversWith(o, v, lo, hi, inserts, streak)
  {
    v := o;
    var cursor, ub := FuseStart(v, lo, hi, streak);
    var end := hi;
    var cur := streak;
    inserts := 1;
    ghost var k := cursor;
    assert o[..cursor] + o[k..] == o;
    var done := false;
    while cursor != end && !done
      invariant FuseState(o, lo, hi, ub, streak, cursor, k, cur)
      invariant end == hi - (k - cursor) && inserts == 1 - (k - cursor)
      invariant v == o[..cursor] + o[k..]
      invariant done ==> k < hi && cur.second < o[k].first
      decreases end - cursor, !done
    {
      v, cursor, cur, end, inserts, done, k := FuseTurn(o, lo, hi, ub, streak, v, cursor, cur, end, inserts, k);
    }
    v := FuseClose(o, lo, hi, ub, streak, v, cursor, k, cur, inserts);
  }

  /** After the insertion loop: the fused run goes in at the cursor. */
  method FuseClose(ghost o: seq<Pair>, lo: int, hi: int, ghost ub: int, streak: Pair, v: seq<Pair>,
                   cursor: int, ghost k: int, cur: Pair, inserts: int) returns (v': seq<Pair>)
    requires FuseState(o, lo, hi, ub, streak, cursor, k, cur)
    requires k == hi || cur.second < o[k].first
    requires v == o[..cursor] + o[k..] && inserts == 1 - (k - cursor)
    ensures inserts <= 1 && lo < hi + inserts
    ensures Spliced(o, v', lo, hi, inserts, 0)
    ensures RunsNonEmpty(v') && SortedIn(v', lo, hi + inserts, true)
    ensures CoversWith(o, v', lo, hi, inserts, streak)
  {
    GapInsert(o, cursor, k, cur);
    v' := v[..cursor] + [cur] + v[cursor..];
    FuseFinish(o, lo, hi, ub, streak, cursor, k, cur, v', inserts);
  }

  /** The start of the insertion loop: the last run whose start is not after the streak's, or
      `lo` when there is none. */
  method FuseStart(o: seq<Pair>, lo: int, hi: int, streak: Pair) returns (cursor: int, ghost ub: int)
    requires RunsNonEmpty(o) && SortedIn(o, lo, hi, true)
    requires streak.first < streak.second
    ensures FuseState(o, lo, hi, ub, streak, cursor, cursor, streak)
    ensures ub == FirstAbove(o, lo, hi, streak.first)
    ensures cursor == (if FirstAbove(o, lo, hi, streak.first) == lo then lo else FirstAbove(o, lo, hi, streak.first) - 1)
  {
    SortedFirsts(o, lo, hi, true);
    cursor := UpperBound(o, lo, hi, streak.first);
    ub := cursor;
    FuseInit(o, lo, hi, ub, streak);
    if cursor != lo {
      cursor := cursor - 1;
    }
  }

  /** One turn of the insertion loop of `FuseRun`. */
  method FuseTurn(ghost o: seq<Pair>, ghost lo: int, ghost hi: int, ghost ub: int, ghost streak: Pair,
                  v: seq<Pair>, cursor: int, cur: Pair, end: int, inserts: int, ghost k: int)
    returns (v': seq<Pair>, cursor': int, cur': Pair, end': int, inserts': int, done: bool, ghost k': int)
    requires FuseState(o, lo, hi, ub, streak, cursor, k, cur)
    requires end == hi - (k - cursor) && inserts == 1 - (k - cursor)
    requires v == o[..cursor] + o[k..] && cursor != end
    ensures FuseState(o, lo, hi, ub, streak, cursor', k', cur')
    ensures end' == hi - (k' - cursor') && inserts' == 1 - (k' - cursor')
    ensures v' == o[..cursor'] + o[k'..]
    ensures done ==> k' < hi && cur'.second < o[k'].first
    ensures end' - cursor' < end - cursor || (end' - cursor' == end - cursor && done)
  {
    v', cursor', cur', end', inserts', done, k' := v, cursor, cur, end, inserts, false, k;
    GapAt(o, cursor, k);
    if IntersectOrTouch(v[cursor], cur) {
      FuseStep(o, lo, hi, ub, streak, cursor, k, cur);
      GapErase(o, cursor, k);
      cur' := Fuse(v[cursor], cur);
      v' := v[..cursor] + v[cursor + 1..];
      k' := k + 1;
      end' := end - 1;
      inserts' := inserts - 1;
    } else if v[cursor].first < cur.first {
      AdvanceStep(o, lo, hi, ub, streak, cursor, k, cur);
      GapAdvance(o, cursor, k);
      cursor' := cursor + 1;
      k' := k + 1;
    } else {
      // the run at the cursor lies beyond the streak: it goes in front of it
      FuseExit(o, lo, hi, ub, streak, cursor, k, cur);
      done := true;
    }
    if !done && cursor' != end' {
      GapAt(o, cursor', k');
      if !IntersectOrTouch(v'[cursor'], cur') {
        FuseExit(o, lo, hi, ub, streak, cursor', k', cur');
        done := true;
      }
    }
  }

  /** The level-0 insertion loop as the source writes it, one turn per call: a run at the
      cursor that intersects or touches the streak is fused into it and erased, any other run is
      stepped over, and the loop stops (putting the streak at the cursor) when the cursor reaches
      the end or the run there neither intersects nor touches the streak. Stepping over a run
      that lies after the streak is what misplaces it (see `FuseAsWrittenMisorders`). */
  function FuseLoopAsWritten(v: seq<Pair>, cursor: int, end: int, cur: Pair, inserts: int): (r: (seq<Pair>, int))
    requires 0 <= cursor <= end <= |v|
    ensures |r.0| == |v| + 1 + (r.1 - inserts) && r.1 <= inserts
    decreases end - cursor
  {
    if cursor == end then
      (v[..cursor] + [cur] + v[cursor..], inserts)
    else if IntersectOrTouch(v[cursor], cur) then
      var v' := v[..cursor] + v[cursor + 1..];
      var cur' := Fuse(v[cursor], cur);
      if cursor == end - 1 || !IntersectOrTouch(v'[cursor], cur') then
        (v'[..cursor] + [cur'] + v'[cursor..], inserts - 1)
      else
        FuseLoopAsWritten(v', cursor, end - 1, cur', inserts - 1)
    else if cursor + 1 == end || !IntersectOrTouch(v[cursor + 1], cur) then
      (v[..cursor + 1] + [cur] + v[cursor + 1..], inserts)
    else
      FuseLoopAsWritten(v, cursor + 1, end, cur, inserts)
  }

  /** The level-0 insertion as the source writes it: start one before the `upper_bound` of the
      streak's start (unless that is `lo`), then run the loop. */
  function FuseAsWritten(o: seq<Pair>, lo: int, hi: int, streak: Pair): (r: (seq<Pair>, int))
    requires 0 <= lo <= hi <= |o|
    ensures |r.0| == |o| + r.1 && r.1 <= 1
  {
    var u := FirstAbove(o, lo, hi, streak.first);
    FuseLoopAsWritten(o, if u != lo then u - 1 else u, hi, streak, 1)
  }

  /** The run [5, 10) holds; inserting [0, 2) steps over it (they neither intersect nor touch)
      and puts [0, 2) after it, so level 0 is no longer ordered. `FuseRun` stops in front of
      [5, 10) instead. */
  lemma FuseAsWrittenMisorders()
    ensures var o := [Pair(5, 10)];
      RunsNonEmpty(o) && SortedIn(o, 0, 1, true) &&
      FuseAsWritten(o, 0, 1, Pair(0, 2)) == ([Pair(5, 10), Pair(0, 2)], 1) &&
      !SortedIn(FuseAsWritten(o, 0, 1, Pair(0, 2)).0, 0, 2, true)
  {
    var o := [Pair(5, 10)];
    assert FirstAbove(o, 0, 1, 0) == 0;
    assert !IntersectOrTouch(o[0], Pair(0, 2));
    assert o[..1] == o && o[1..] == [];
    assert o[..0 + 1] + [Pair(0, 2)] + o[0 + 1..] == [Pair(5, 10), Pair(0, 2)];
    assert FuseLoopAsWritten(o, 0, 1, Pair(0, 2), 1) == ([Pair(5, 10), Pair(0, 2)], 1);
    var r := FuseAsWritten(o, 0, 1, Pair(0, 2));
    assert r == ([Pair(5, 10), Pair(0, 2)], 1);
    assert !Before(r.0[0], r.0[1], true);
  }

  /** The level-0 removal (`NewRegionRemoveHelper<0>`): takes the cells of `cut` out of the runs
      [lo, hi) of `o`, replacing each run it meets by what `substract` leaves of it. Returns the new
      level and the change in the number of runs. */
  method CutRun(o: seq<Pair>, lo: int, hi: int, cut: Pair) returns (v: seq<Pair>, inserts: int)
    requires RunsNonEmpty(o) && SortedIn(o, lo, hi, true)
    requires cut.first < cut.second
    ensures lo <= hi + inserts
    ensures Spliced(o, v, lo, hi, inserts, 0)
    ensures RunsNonEmpty(v) && SortedIn(v, lo, hi + inserts, true)
    ensures CoversWithout(o, v, lo, hi, inserts, cut)
  {
    v := o;
    var cursor, ub := CutStart(o, lo, hi, cut);
    var end := hi;
    inserts := 0;
    ghost var k := cursor;
    ghost var R := o[lo..cursor];
    SplitThree(o, lo, cursor);
    var done := false;
    while cursor != end && !done
      invariant CutState(o, lo, hi, ub, cut, k, R)
      invariant v == o[..lo] + R + o[k..] && cursor == lo + |R|
      invariant end == hi + |R| - (k - lo) && inserts == |R| - (k - lo)
      invariant done ==> k < hi && cut.second <= o[k].first
      decreases end - cursor, !done
    {
      v, cursor, end, inserts, done, k, R := CutTurn(o, lo, hi, ub, cut, v, cursor, end, inserts, k, R);
    }
    assert k == hi || cut.second <= o[k].first;
    CutClose(o, lo, hi, ub, cut, k, R, v, inserts);
  }

  /** The start of the removal loop: the last run whose start is not after the cut's, or `lo`. */
  method CutStart(o: seq<Pair>, lo: int, hi: int, cut: Pair) returns (cursor: int, ghost ub: int)
    requires RunsNonEmpty(o) && SortedIn(o, lo, hi, true)
    requires cut.first < cut.second
    ensures lo <= cursor <= hi && CutState(o, lo, hi, ub, cut, cursor, o[lo..cursor])
    ensures ub == FirstAbove(o, lo, hi, cut.first)
    ensures cursor == (if FirstAbove(o, lo, hi, cut.first) == lo then lo else FirstAbove(o, lo, hi, cut.first) - 1)
  {
    SortedFirsts(o, lo, hi, true);
    cursor := UpperBound(o, lo, hi, cut.first);
    ub := cursor;
    if cursor != lo {
      cursor := cursor - 1;
      forall j | lo <= j < cursor ensures o[j].second <= cut.first {
        assert Before(o[j], o[cursor], true);
      }
    }
    RemoveStart(o, lo, hi, cursor, cut);
  }

  /** One turn of the removal loop of `CutRun`: the run at the cursor is cut, and the loop stops
      when the next run is out of reach of `cut`. */
  method CutTurn(ghost o: seq<Pair>, ghost lo: int, ghost hi: int, ghost ub: int, cut: Pair,
                 v: seq<Pair>, cursor: int, end: int, inserts: int, ghost k: int, ghost R: seq<Pair>)
    returns (v': seq<Pair>, cursor': int, end': int, inserts': int, done: bool,
             ghost k': int, ghost R': seq<Pair>)
    requires CutState(o, lo, hi, ub, cut, k, R)
    requires v == o[..lo] + R + o[k..] && cursor == lo + |R|
    requires end == hi + |R| - (k - lo) && inserts == |R| - (k - lo) && cursor != end
    ensures CutState(o, lo, hi, ub, cut, k', R')
    ensures v' == o[..lo] + R' + o[k'..] && cursor' == lo + |R'|
    ensures end' == hi + |R'| - (k' - lo) && inserts' == |R'| - (k' - lo)
    ensures done ==> k' < hi && cut.second <= o[k'].first
    ensures end' - cursor' < end - cursor
  {
    CutView(o, lo, R, k);
    v', cursor', end', inserts' := CutAt(o[..lo] + R, o[k], o[k + 1..], cut, v, cursor, end, inserts);
    CutStep(o, lo, hi, ub, cut, k, R);
    R' := R + Substract(o[k], cut);
    k' := k + 1;
    done := false;
    if cursor' != end' {
      CutView(o, lo, R', k');
      if !Intersect(v'[cursor'], cut) {
        done := true;
      }
    }
  }

  /** The run p at the cursor of the level `v` = X + [p] + Y is replaced by the parts of it outside
      `cut`, and the cursor steps past them. */
  method CutAt(ghost X: seq<Pair>, ghost p: Pair, ghost Y: seq<Pair>, cut: Pair,
                 v: seq<Pair>, cursor: int, end: int, inserts: int)
    returns (v': seq<Pair>, cursor': int, end': int, inserts': int)
    requires v == X + [p] + Y && cursor == |X|
    ensures v' == X + Substract(p, cut) + Y && cursor' == |X| + |Substract(p, cut)|
    ensures end' == end + |Substract(p, cut)| - 1 && inserts' == inserts + |Substract(p, cut)| - 1
  {
    assert v[cursor] == p;
    if Intersect(cut, v[cursor]) {
      var pieces := Substract(v[cursor], cut);
      SpliceOut(X, p, Y);
      v' := v[..cursor] + v[cursor + 1..];
      var delta := |pieces| - 1;
      end' := end + delta;
      inserts' := inserts + delta;
      v', cursor' := InsertPieces(X, Y, v', cursor, pieces);
    } else {
      v', end', inserts' := v, end, inserts;
      cursor' := cursor + 1;
    }
  }

  /** The inner loop of the removal: inserts `pieces` one by one at the cursor, stepping past each. */
  method InsertPieces(ghost X: seq<Pair>, ghost Y: seq<Pair>, v: seq<Pair>, cursor: int, pieces: seq<Pair>)
    returns (v': seq<Pair>, cursor': int)
    requires v == X + Y && cursor == |X|
    ensures v' == X + pieces + Y && cursor' == |X| + |pieces|
  {
    v', cursor' := v, cursor;
    for i := 0 to |pieces|
      invariant v' == X + pieces[..i] + Y && cursor' == |X| + i
    {
      SpliceIn(X + pieces[..i], pieces[i], Y);
      assert X + pieces[..i + 1] == X + pieces[..i] + [pieces[i]];
      v' := v'[..cursor'] + [pieces[i]] + v'[cursor'..];
      cursor' := cursor' + 1;
    }
    assert pieces[..|pieces|] == pieces;
  }

  /** Under valid levels, an empty level 0 leaves every level up to d empty: each level partitions
      the one below into non-empty child ranges. */
  lemma {:induction false} BottomEmpty(L: seq<seq<Pair>>, d: nat)
    requires d < |L| && LevelsValid(L, d)
    ensures L[0] == [] <==> forall k :: 0 <= k <= d ==> L[k] == []
  {
    if d > 0 && L[0] == [] {
      BottomEmpty(L, d - 1);
      assert LevelOk(L, d) && L[d - 1] == [];
      if L[d] != [] {
        assert false;
      }
    }
  }

  /** A stack of empty levels is consistent. */
  lemma EmptyLevelsValid(L: seq<seq<Pair>>, d: nat)
    requires d < |L| && forall k :: 0 <= k < |L| ==> L[k] == []
    ensures LevelsValid(L, d)
  {
    forall k | 0 < k <= d ensures LevelOk(L, k) {
      assert L[k] == [] && L[k - 1] == [];
    }
  }
}
