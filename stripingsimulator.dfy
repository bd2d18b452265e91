// The integer arithmetic of StripingSimulator: partitioning the outermost
// axis into stripes, converting between partitions and workloads, the
// configuration and load checks, ghost heights and regions of one node,
// neighbour search, and the migration plan of a rebalance. Rank and size of
// the node group are explicit; all MPI traffic is left out.

module Striping {
  import opened SuperVectors

  // ---------------------------------------------------------------------------
  // Partitions and workloads
  // ---------------------------------------------------------------------------

  /** The range of `unsigned`: its products are taken modulo 2^32. */
  const UINT_RANGE: nat := 0x1_0000_0000

  /** `partition(gridHeight, size)`: entry i is the first row of node i, entry size the grid height.
      The product gridHeight * i is an `unsigned` one and wraps at 2^32. */
  function PartitionOf(gridHeight: nat, size: nat): (r: seq<int>)
  {
    seq(size + 1, i requires 0 <= i <= size => if i < size then gridHeight * i % UINT_RANGE / size else gridHeight)
  }

  /** Below the last node the product gridHeight * i does not wrap while gridHeight * (size - 1)
      does not. */
  lemma NoWrap(gridHeight: nat, size: nat, i: nat)
    requires i < size && gridHeight * (size - 1) < UINT_RANGE
    ensures PartitionOf(gridHeight, size)[i] == gridHeight * i / size
  {
    var a := gridHeight * i;
    MulMono(gridHeight, i, size - 1);
    assert 0 <= a < UINT_RANGE;
    assert a % UINT_RANGE == a;
  }

  /** A product grows with a factor. */
  lemma MulMono(h: nat, i: nat, m: nat)
    requires i <= m
    ensures h * i <= h * m
  {
    var t: nat := m - i;
    assert h * m == h * i + h * t;
  }

  /** With 2^20 rows on 5000 nodes the product reaches 2^32 at node 4096, whose first row wraps
      to 0: the partition is no longer non-decreasing. */
  lemma PartitionWraps()
    ensures var p := PartitionOf(0x10_0000, 5000); p[4095] == 858783 && p[4096] == 0 && !NonDecreasing(p)
  {
    var p := PartitionOf(0x10_0000, 5000);
    assert p[4095] == 0x10_0000 * 4095 % UINT_RANGE / 5000 == 858783;
    assert p[4096] == 0x10_0000 * 4096 % UINT_RANGE / 5000 == 0;
  }

  predicate NonDecreasing(p: seq<int>)
  {
    forall i, j :: 0 <= i <= j < |p| ==> p[i] <= p[j]
  }

  /** The stripes differ in height by at most one row. */
  lemma {:induction false} FloorStep(a: nat, h: nat, n: nat)
    requires n > 0
    ensures h / n <= (a + h) / n - a / n <= h / n + 1
  {
    var q1, r1 := a / n, a % n;
    var q2, r2 := (a + h) / n, (a + h) % n;
    var qh, rh := h / n, h % n;
    assert a == q1 * n + r1 && a + h == q2 * n + r2 && h == qh * n + rh;
    var k := q2 - q1 - qh;
    assert k * n == rh + r1 - r2 by {
      calc {
        k * n;
        q2 * n - q1 * n - qh * n;
        (a + h - r2) - (a - r1) - (h - rh);
      }
    }
    SmallMultiple(k, n);
  }

  /** A multiple of n strictly between -n and 2n is 0 or n. */
  lemma SmallMultiple(k: int, n: int)
    requires n > 0 && -n < k * n < 2 * n
    ensures 0 <= k <= 1
  {
    MulSign(k + 1, n);
    MulSign(k - 2, n);
    assert (k + 1) * n == k * n + n && (k - 2) * n == k * n - 2 * n;
  }

  /** A product with a positive factor has the sign of the other factor. */
  lemma MulSign(a: int, n: int)
    requires n > 0
    ensures a <= 0 ==> a * n <= 0
    ensures a >= 0 ==> a * n >= 0
  {
  }

  /** Stripe i of `partition` holds gridHeight/size or gridHeight/size + 1 rows. */
  lemma StripeHeight(gridHeight: nat, size: nat, i: nat)
    requires i < size && gridHeight * (size - 1) < UINT_RANGE
    ensures var p := PartitionOf(gridHeight, size);
      gridHeight / size <= p[i + 1] - p[i] <= gridHeight / size + 1
  {
    var p := PartitionOf(gridHeight, size);
    var a := gridHeight * i;
    NoWrap(gridHeight, size, i);
    FloorStep(a, gridHeight, size);
    assert a + gridHeight == gridHeight * (i + 1);
    if i + 1 == size {
      assert p[i + 1] == gridHeight;
      DivCancel(gridHeight, size);
    } else {
      NoWrap(gridHeight, size, i + 1);
    }
  }

  lemma DivCancel(h: nat, n: nat)
    requires n > 0
    ensures h * n / n == h
  {
    var q, r := h * n / n, h * n % n;
    assert (h - q) * n == r;
    ZeroMultiple(h - q, n);
  }

  lemma {:induction false} StepsNonDecreasing(p: seq<int>)
    requires forall i :: 0 <= i < |p| - 1 ==> p[i] <= p[i + 1]
    ensures NonDecreasing(p)
  {
    if |p| > 1 {
      var init := p[..|p| - 1];
      StepsNonDecreasing(init);
      assert forall i :: 0 <= i < |p| - 1 ==> p[i] <= p[|p| - 1] by {
        forall i | 0 <= i < |p| - 1 ensures p[i] <= p[|p| - 1] {
          assert init[i] <= init[|init| - 1];
        }
      }
    }
  }

  /** `partition` starts at 0, ends at the grid height, is non-decreasing, and splits the height
      evenly: every stripe holds gridHeight/size or gridHeight/size + 1 rows. */
  lemma PartitionShape(gridHeight: nat, size: nat)
    requires size > 0 && gridHeight * (size - 1) < UINT_RANGE
    ensures var p := PartitionOf(gridHeight, size);
      |p| == size + 1 && p[0] == 0 && p[size] == gridHeight && NonDecreasing(p) &&
      forall i :: 0 <= i < size ==> gridHeight / size <= p[i + 1] - p[i] <= gridHeight / size + 1
  {
    var p := PartitionOf(gridHeight, size);
    PartitionEnds(gridHeight, size);
    var q: nat := gridHeight / size;
    forall i | 0 <= i < size
      ensures q <= p[i + 1] - p[i] <= q + 1 && p[i] <= p[i + 1]
    {
      StripeHeight(gridHeight, size, i);
    }
    StepsNonDecreasing(p);
  }

  lemma PartitionEnds(gridHeight: nat, size: nat)
    requires size > 0
    ensures var p := PartitionOf(gridHeight, size); p[0] == 0 && p[size] == gridHeight
  {
    assert gridHeight * 0 == 0;
  }

  method Partition(gridHeight: nat, size: nat) returns (ret: seq<int>)
    ensures ret == PartitionOf(gridHeight, size)
  {
    var a := new int[size + 1];
    var i := 0;
    while i < size
      invariant 0 <= i <= size
      invariant forall k :: 0 <= k < i ==> a[k] == gridHeight * k % UINT_RANGE / size
    {
      a[i] := gridHeight * i % UINT_RANGE / size;
      i := i + 1;
    }
    a[size] := gridHeight;
    ret := a[..];
  }

  /** Adjacent differences: the number of rows of each stripe. */
  function Workloads(p: seq<int>): (w: seq<int>)
    requires |p| >= 1
  {
    seq(|p| - 1, i requires 0 <= i < |p| - 1 => p[i + 1] - p[i])
  }

  /** Prefix sums starting at 0. */
  function PrefixSums(w: seq<int>): (p: seq<int>)
    ensures |p| == |w| + 1 && p[0] == 0
  {
    if w == [] then [0]
    else
      var init := PrefixSums(w[..|w| - 1]);
      init + [init[|init| - 1] + w[|w| - 1]]
  }

  method PartitionsToWorkloads(partitions: seq<int>) returns (ret: seq<int>)
    requires |partitions| >= 1
    ensures ret == Workloads(partitions)
  {
    var a := new int[|partitions| - 1];
    var i := 0;
    while i < a.Length
      invariant 0 <= i <= a.Length
      invariant forall k :: 0 <= k < i ==> a[k] == partitions[k + 1] - partitions[k]
    {
      a[i] := partitions[i + 1] - partitions[i];
      i := i + 1;
    }
    ret := a[..];
  }

  method WorkloadsToPartitions(workloads: seq<int>) returns (ret: seq<int>)
    ensures ret == PrefixSums(workloads)
  {
    var a := new int[|workloads| + 1];
    a[0] := 0;
    var i := 0;
    while i < |workloads|
      invariant 0 <= i <= |workloads|
      invariant a[..i + 1] == PrefixSums(workloads[..i])
    {
      assert workloads[..i + 1][..i] == workloads[..i];
      a[i + 1] := a[i] + workloads[i];
      assert a[..i + 2] == a[..i + 1] + [a[i + 1]];
      i := i + 1;
    }
    assert workloads[..i] == workloads;
    assert a[..] == a[..i + 1];
    ret := a[..];
  }

  /** Every entry of the prefix sums is the sum of the workloads before it. */
  lemma {:induction false} PrefixSumsAt(w: seq<int>, k: nat)
    requires k <= |w|
    ensures PrefixSums(w)[k] == SeqSum(w[..k])
  {
    if k < |w| {
      var init := w[..|w| - 1];
      PrefixSumsAt(init, k);
      assert init[..k] == w[..k];
    } else if w != [] {
      var init := w[..|w| - 1];
      PrefixSumsAt(init, |init|);
      assert init[..|init|] == init;
      assert w[..k] == w;
    }
  }

  /** Round trip: converting a partition that starts at 0 to workloads and back restores it. */
  lemma {:induction false} PartitionsRoundTrip(p: seq<int>)
    requires |p| >= 1 && p[0] == 0
    ensures PrefixSums(Workloads(p)) == p
  {
    if |p| > 1 {
      var init := p[..|p| - 1];
      PartitionsRoundTrip(init);
      assert Workloads(p)[..|p| - 2] == Workloads(init);
    }
  }

  /** Round trip the other way: the workloads of the prefix sums are the workloads. */
  lemma WorkloadsRoundTrip(w: seq<int>)
    ensures Workloads(PrefixSums(w)) == w
  {
    var p := PrefixSums(w);
    forall i | 0 <= i < |w| ensures p[i + 1] - p[i] == w[i] {
      PrefixSumsAt(w, i);
      PrefixSumsAt(w, i + 1);
      assert w[..i + 1] == w[..i] + [w[i]];
      SeqSumAppend(w[..i], [w[i]]);
      assert SeqSum([w[i]]) == SeqSum([]) + w[i];
    }
  }

  /** The workloads of a partition add up to its extent. */
  lemma {:induction false} WorkloadsSum(p: seq<int>)
    requires |p| >= 1
    ensures SeqSum(Workloads(p)) == p[|p| - 1] - p[0]
  {
    if |p| > 1 {
      var init := p[..|p| - 1];
      WorkloadsSum(init);
      assert Workloads(p)[..|p| - 2] == Workloads(init);
    }
  }

  // ---------------------------------------------------------------------------
  // Validation
  // ---------------------------------------------------------------------------

  datatype Error =
    | LoadsNotInvariant          // validateLoads
    | NonPositivePeriod          // loadBalancingPeriod < 1
    | RootWithoutBalancer        // rank 0 needs a LoadBalancer
    | NonRootWithBalancer        // other ranks must not have one

  datatype Outcome = Pass | Fail(error: Error)

  /** `validateLoads`: the balancer's output must keep both the length and the sum of the workloads. */
  function ValidateLoads(newLoads: seq<int>, oldLoads: seq<int>): (r: Outcome)
    ensures r == Pass || r == Fail(LoadsNotInvariant)
    ensures r == Pass <==> |newLoads| == |oldLoads| && SeqSum(newLoads) == SeqSum(oldLoads)
  {
    if |newLoads| != |oldLoads| || SeqSum(newLoads) != SeqSum(oldLoads) then Fail(LoadsNotInvariant)
    else Pass
  }

  /** `validateConstructorParams`, checked in the source's order. */
  function ValidateConstructorParams(loadBalancingPeriod: nat, rank: nat, hasBalancer: bool): (r: Outcome)
    ensures r == Pass <==> loadBalancingPeriod >= 1 && (hasBalancer <==> rank == 0)
    ensures loadBalancingPeriod < 1 ==> r == Fail(NonPositivePeriod)
    ensures loadBalancingPeriod >= 1 && rank == 0 && !hasBalancer ==> r == Fail(RootWithoutBalancer)
    ensures loadBalancingPeriod >= 1 && rank != 0 && hasBalancer ==> r == Fail(NonRootWithBalancer)
  {
    if loadBalancingPeriod < 1 then Fail(NonPositivePeriod)
    else if rank == 0 && !hasBalancer then Fail(RootWithoutBalancer)
    else if rank != 0 && hasBalancer then Fail(NonRootWithBalancer)
    else Pass
  }

  /** What the root does in `balanceLoad` with the balancer's answer: validate it against the
      current workloads and turn it back into a partition. */
  function RootRepartition(partitions: seq<int>, newWorkloads: seq<int>): (r: Option)
    requires |partitions| >= 1
  {
    if ValidateLoads(newWorkloads, Workloads(partitions)).Pass? then Some(PrefixSums(newWorkloads))
    else None
  }

  datatype Option = None | Some(value: seq<int>)

  /** Rebalancing keeps the partition's length, its start at 0 and its end at the grid height; a
      balancer whose answer would change either is refused. */
  lemma RepartitionKeepsExtent(partitions: seq<int>, newWorkloads: seq<int>)
    requires |partitions| >= 1 && partitions[0] == 0
    ensures RootRepartition(partitions, newWorkloads).Some? <==>
              |newWorkloads| == |partitions| - 1 &&
              SeqSum(newWorkloads) == partitions[|partitions| - 1]
    ensures RootRepartition(partitions, newWorkloads).Some? ==>
              var q := RootRepartition(partitions, newWorkloads).value;
              |q| == |partitions| && q[0] == 0 && q[|q| - 1] == partitions[|partitions| - 1]
  {
    WorkloadsSum(partitions);
    var q := PrefixSums(newWorkloads);
    PrefixSumsAt(newWorkloads, |newWorkloads|);
    assert newWorkloads[..|newWorkloads|] == newWorkloads;
  }

  // ---------------------------------------------------------------------------
  // Period gating of balanceLoad, handleInput and handleOutput
  // ---------------------------------------------------------------------------

  /** `balanceLoad` does its work only on steps that are multiples of the period. */
  predicate BalancesAt(stepNum: nat, loadBalancingPeriod: nat)
    requires loadBalancingPeriod >= 1
  {
    stepNum % loadBalancingPeriod == 0
  }

  /** In each window of `loadBalancingPeriod` consecutive steps starting at a multiple of it,
      exactly the first step rebalances. */
  lemma BalancesOncePerWindow(k: nat, loadBalancingPeriod: nat, stepNum: nat)
    requires loadBalancingPeriod >= 1
    requires k * loadBalancingPeriod <= stepNum < (k + 1) * loadBalancingPeriod
    ensures BalancesAt(stepNum, loadBalancingPeriod) <==> stepNum == k * loadBalancingPeriod
  {
    var p := loadBalancingPeriod;
    var q, r := stepNum / p, stepNum % p;
    assert stepNum == q * p + r;
    if stepNum == k * p {
      ZeroMultiple(k - q, p);
    }
    if r == 0 {
      ZeroMultiple(q - k, p);
    }
  }

  lemma ZeroMultiple(a: int, p: int)
    requires p >= 1 && 0 <= a * p < p
    ensures a == 0
  {
  }

  datatype WriterEvent = WriterInitialized | WriterStepFinished | WriterAllDone

  /** `handleOutput`: a writer is called on every event other than a finished step, and on a
      finished step only every `period` steps. */
  predicate WriterCalled(event: WriterEvent, step: nat, period: nat)
    requires period >= 1
  {
    event != WriterStepFinished || step % period == 0
  }

  /** `handleInput`: a steerer is called every `period` steps. */
  predicate SteererCalled(stepNum: nat, period: nat)
    requires period >= 1
  {
    stepNum % period == 0
  }

  /** Within each window of `period` consecutive steps a steerer is called exactly once, at the
      window's first step. */
  lemma SteererOncePerWindow(k: nat, period: nat, stepNum: nat)
    requires period >= 1 && k * period <= stepNum < (k + 1) * period
    ensures SteererCalled(stepNum, period) <==> stepNum == k * period
  {
    BalancesOncePerWindow(k, period, stepNum);
  }

  /** A writer is called at every initialization and final event, and on finished steps exactly
      once within each window of `period` steps, at the window's first step. */
  lemma WriterOncePerWindow(event: WriterEvent, k: nat, period: nat, step: nat)
    requires period >= 1 && k * period <= step < (k + 1) * period
    ensures event != WriterStepFinished ==> WriterCalled(event, step, period)
    ensures event == WriterStepFinished ==> (WriterCalled(event, step, period) <==> step == k * period)
  {
    BalancesOncePerWindow(k, period, step);
  }

  // ---------------------------------------------------------------------------
  // Ghost geometry
  // ---------------------------------------------------------------------------

  /** The outermost-axis extent of a `CoordBox`; the other axes always span the whole grid. */
  datatype Box = Box(start: int, height: nat)

  /** `boundingBox(start, end)`: height clamped at 0. */
  function BoundingBox(start: int, end: int): Box
  {
    Box(start, if end - start > 0 then end - start else 0)
  }

  /** The rows a box covers. */
  function BoxRows(b: Box): set<int>
    decreases b.height
  {
    if b.height == 0 then {} else BoxRows(Box(b.start, b.height - 1)) + {b.start + b.height - 1}
  }

  lemma {:induction false} BoxRowsMembership(b: Box, r: int)
    ensures r in BoxRows(b) <==> b.start <= r < b.start + b.height
    decreases b.height
  {
    if b.height > 0 {
      BoxRowsMembership(Box(b.start, b.height - 1), r);
    }
  }

  /** `fillRegion(start, end)`: the region holding the rows of `boundingBox(start, end)`. */
  function FillRegion(start: int, end: int): set<int>
  {
    BoxRows(BoundingBox(start, end))
  }

  /** `boundingBox(start, end)` covers exactly the rows [start, end), nothing when end <= start. */
  lemma FillRegionRows(start: int, end: int, r: int)
    ensures r in FillRegion(start, end) <==> start <= r < end
  {
    BoxRowsMembership(BoundingBox(start, end), r);
  }

  /** The ghost heights chosen by `adaptDimensions` for the stripe [startRow, endRow) of a partition
      with `entries` entries whose last entry is `lastRow`. */
  function GhostHeights(startRow: int, endRow: int, lastRow: int, entries: nat, wrapEdges: bool): (nat, nat)
  {
    if entries == 2 then (0, 0)
    else if startRow == endRow then (0, 0)
    else if wrapEdges then (1, 1)
    else (if startRow > 0 then 1 else 0, if endRow < lastRow then 1 else 0)
  }

  /** The stripe [start, end) is the union of its inner upper ghost, its interior and its inner
      lower ghost, whichever ghost heights (0 or 1, both 0 for an empty stripe) are chosen. */
  lemma InnerRegionsCoverStripe(start: int, end: int, upper: nat, lower: nat)
    requires start <= end && upper <= 1 && lower <= 1
    requires start == end ==> upper == 0 && lower == 0
    ensures FillRegion(start, start + upper) + FillRegion(start + upper, end - lower) +
            FillRegion(end - lower, end) == FillRegion(start, end)
    ensures FillRegion(start, start + upper) <= FillRegion(start, end)
    ensures FillRegion(end - lower, end) <= FillRegion(start, end)
  {
    var lhs := FillRegion(start, start + upper) + FillRegion(start + upper, end - lower) +
               FillRegion(end - lower, end);
    forall r ensures r in lhs <==> r in FillRegion(start, end) {
      FillRegionRows(start, start + upper, r);
      FillRegionRows(start + upper, end - lower, r);
      FillRegionRows(end - lower, end, r);
      FillRegionRows(start, end, r);
    }
  }

  /** The outer ghosts lie just outside the stripe, with the heights of the inner ghosts. */
  lemma OuterGhostsOutside(start: int, end: int, upper: nat, lower: nat)
    requires start <= end
    ensures FillRegion(start - upper, start) !! FillRegion(start, end)
    ensures FillRegion(end, end + lower) !! FillRegion(start, end)
    ensures |FillRegion(start - upper, start)| == upper && |FillRegion(end, end + lower)| == lower
  {
    RowsCount(start - upper, upper);
    RowsCount(end, lower);
    forall r | r in FillRegion(start, end)
      ensures r !in FillRegion(start - upper, start) && r !in FillRegion(end, end + lower)
    {
      FillRegionRows(start - upper, start, r);
      FillRegionRows(end, end + lower, r);
      FillRegionRows(start, end, r);
    }
    assert FillRegion(start - upper, start) == BoxRows(Box(start - upper, upper));
    assert FillRegion(end, end + lower) == BoxRows(Box(end, lower));
  }

  lemma {:induction false} RowsCount(start: int, height: nat)
    ensures |BoxRows(Box(start, height))| == height
  {
    if height > 0 {
      RowsCount(start, height - 1);
      BoxRowsMembership(Box(start, height - 1), start + height - 1);
    }
  }

  /** The state of one node: its rank in a group of `size`, the partition and the regions derived
      from it. */
  class StripingSimulator {
    const rank: nat
    const size: nat
    const wrapEdges: bool
    var partitions: seq<int>
    var ghostHeightUpper: nat
    var ghostHeightLower: nat
    var region: set<int>
    var innerRegion: set<int>
    var innerUpperGhostRegion: set<int>
    var innerLowerGhostRegion: set<int>
    var outerUpperGhostRegion: set<int>
    var outerLowerGhostRegion: set<int>
    var regionWithOuterGhosts: set<int>
    var stepNum: nat
    const loadBalancingPeriod: nat

    /** The constructor after `validateConstructorParams` passed: even partition of the grid,
        and the step counter at the initializer's start step (`startStep`). */
    constructor (gridHeight: nat, rank: nat, size: nat, wrapEdges: bool, loadBalancingPeriod: nat,
                 hasBalancer: bool, startStep: nat)
      requires rank < size
      requires ValidateConstructorParams(loadBalancingPeriod, rank, hasBalancer) == Pass
      ensures this.rank == rank && this.size == size && this.wrapEdges == wrapEdges
      ensures this.loadBalancingPeriod == loadBalancingPeriod
      ensures partitions == PartitionOf(gridHeight, size)
      ensures Consistent() && stepNum == startStep
    {
      this.rank := rank;
      this.size := size;
      this.wrapEdges := wrapEdges;
      this.loadBalancingPeriod := loadBalancingPeriod;
      stepNum := 0;
      new;
      var p := Partition(gridHeight, size);
      var box := AdaptDimensions(p);
      InitSimulation(startStep);
    }

    /** `initSimulation`, its step counter only: the counter restarts at the initializer's
        start step. */
    method InitSimulation(startStep: nat)
      modifies this`stepNum
      ensures stepNum == startStep
    {
      stepNum := startStep;
    }

    /** The ghost heights and the seven regions agree with the stripe [start, end) of this rank. */
    ghost predicate Consistent()
      reads this
    {
      rank < size && |partitions| == size + 1 &&
      var start, end := partitions[rank], partitions[rank + 1];
      (ghostHeightUpper, ghostHeightLower) ==
        GhostHeights(start, end, partitions[size], |partitions|, wrapEdges) &&
      region == FillRegion(start, end) &&
      innerRegion == FillRegion(start + ghostHeightUpper, end - ghostHeightLower) &&
      innerUpperGhostRegion == FillRegion(start, start + ghostHeightUpper) &&
      innerLowerGhostRegion == FillRegion(end - ghostHeightLower, end) &&
      outerUpperGhostRegion == FillRegion(start - ghostHeightUpper, start) &&
      outerLowerGhostRegion == FillRegion(end, end + ghostHeightLower) &&
      regionWithOuterGhosts == outerUpperGhostRegion + region + outerLowerGhostRegion
    }

    /** `initRegions(startRow, endRow)` with the current ghost heights. */
    method InitRegions(startRow: int, endRow: int)
      modifies this`region, this`innerRegion, this`innerUpperGhostRegion, this`innerLowerGhostRegion,
               this`outerUpperGhostRegion, this`outerLowerGhostRegion, this`regionWithOuterGhosts
      ensures region == FillRegion(startRow, endRow)
      ensures innerRegion == FillRegion(startRow + ghostHeightUpper, endRow - ghostHeightLower)
      ensures innerUpperGhostRegion == FillRegion(startRow, startRow + ghostHeightUpper)
      ensures innerLowerGhostRegion == FillRegion(endRow - ghostHeightLower, endRow)
      ensures outerUpperGhostRegion == FillRegion(startRow - ghostHeightUpper, startRow)
      ensures outerLowerGhostRegion == FillRegion(endRow, endRow + ghostHeightLower)
      ensures regionWithOuterGhosts == outerUpperGhostRegion + region + outerLowerGhostRegion
    {
      region := FillRegion(startRow, endRow);
      innerRegion := FillRegion(startRow + ghostHeightUpper, endRow - ghostHeightLower);
      innerUpperGhostRegion := FillRegion(startRow, startRow + ghostHeightUpper);
      innerLowerGhostRegion := FillRegion(endRow - ghostHeightLower, endRow);
      outerUpperGhostRegion := FillRegion(startRow - ghostHeightUpper, startRow);
      outerLowerGhostRegion := FillRegion(endRow, endRow + ghostHeightLower);
      regionWithOuterGhosts := outerUpperGhostRegion + region + outerLowerGhostRegion;
    }

    /** `adaptDimensions`: ghost heights and regions for the new partition; returns the bounding box
        of the stripe including its outer ghosts. */
    method AdaptDimensions(newPartitions: seq<int>) returns (box: Box)
      requires rank < size && |newPartitions| == size + 1
      modifies this
      ensures partitions == newPartitions && Consistent()
      ensures stepNum == old(stepNum)
      ensures box == BoundingBox(newPartitions[rank] - ghostHeightUpper,
                                 newPartitions[rank + 1] + ghostHeightLower)
    {
      var startRow := newPartitions[rank];
      var endRow := newPartitions[rank + 1];
      if startRow == endRow {
        ghostHeightUpper, ghostHeightLower := 0, 0;
      } else if wrapEdges {
        ghostHeightUpper, ghostHeightLower := 1, 1;
      } else {
        ghostHeightUpper := if startRow > 0 then 1 else 0;
        ghostHeightLower := if endRow < newPartitions[|newPartitions| - 1] then 1 else 0;
      }
      if |newPartitions| == 2 {
        ghostHeightUpper, ghostHeightLower := 0, 0;
      }
      InitRegions(startRow, endRow);
      partitions := newPartitions;
      box := BoundingBox(startRow - ghostHeightUpper, endRow + ghostHeightLower);
    }

    /** `balanceLoad` for the partition the root broadcasts (`broadcast` stands for the root's
        validated answer): nothing happens off-period; otherwise the grid is redistributed. */
    method BalanceLoad(broadcast: seq<int>) returns (plan: Migration)
      requires Consistent() && loadBalancingPeriod >= 1 && |broadcast| == size + 1
      modifies this
      ensures Consistent() && stepNum == old(stepNum)
      ensures !BalancesAt(old(stepNum), loadBalancingPeriod) ==>
                plan == Unchanged && unchanged(this)
      ensures BalancesAt(old(stepNum), loadBalancingPeriod) ==>
                partitions == broadcast && plan == RedistributionPlan(old(partitions), broadcast, rank)
    {
      if stepNum % loadBalancingPeriod != 0 {
        return Unchanged;
      }
      plan := RedistributeGrid(partitions, broadcast);
    }

    /** `handleInput`: the indices of the steerers called at this step, in order; steerer i has
        period `periods[i]`. */
    method HandleInput(periods: seq<nat>) returns (called: seq<nat>)
      requires forall i :: 0 <= i < |periods| ==> periods[i] >= 1
      ensures forall i :: i in called ==> i < |periods|
      ensures forall i :: 0 <= i < |periods| ==> (i in called <==> SteererCalled(stepNum, periods[i]))
      ensures forall a, b :: 0 <= a < b < |called| ==> called[a] < called[b]
    {
      called := [];
      var i := 0;
      while i < |periods|
        invariant 0 <= i <= |periods|
        invariant forall a :: 0 <= a < |called| ==> called[a] < i
        invariant forall j :: 0 <= j < i ==> (j in called <==> SteererCalled(stepNum, periods[j]))
        invariant forall a, b :: 0 <= a < b < |called| ==> called[a] < called[b]
      {
        if stepNum % periods[i] == 0 {
          called := called + [i];
        }
        i := i + 1;
      }
    }

    /** `handleOutput(event)`: the indices of the writers called, in order; writer i has period
        `periods[i]`. */
    method HandleOutput(event: WriterEvent, periods: seq<nat>) returns (called: seq<nat>)
      requires forall i :: 0 <= i < |periods| ==> periods[i] >= 1
      ensures forall i :: i in called ==> i < |periods|
      ensures forall i :: 0 <= i < |periods| ==> (i in called <==> WriterCalled(event, stepNum, periods[i]))
      ensures forall a, b :: 0 <= a < b < |called| ==> called[a] < called[b]
    {
      called := [];
      var i := 0;
      while i < |periods|
        invariant 0 <= i <= |periods|
        invariant forall a :: 0 <= a < |called| ==> called[a] < i
        invariant forall j :: 0 <= j < i ==> (j in called <==> WriterCalled(event, stepNum, periods[j]))
        invariant forall a, b :: 0 <= a < b < |called| ==> called[a] < called[b]
      {
        if event != WriterStepFinished || stepNum % periods[i] == 0 {
          called := called + [i];
        }
        i := i + 1;
      }
    }

    /** `redistributeGrid` without the transfers themselves: adapts the geometry to the new
        partition and returns what this node receives and sends. */
    method RedistributeGrid(oldPartitions: seq<int>, newPartitions: seq<int>) returns (plan: Migration)
      requires Consistent() && oldPartitions == partitions && |newPartitions| == size + 1
      modifies this
      ensures Consistent() && partitions == newPartitions && stepNum == old(stepNum)
      ensures newPartitions == oldPartitions ==> unchanged(this)
      ensures plan == RedistributionPlan(oldPartitions, newPartitions, rank)
    {
      if newPartitions == oldPartitions {
        return Unchanged;
      }
      var box := AdaptDimensions(newPartitions);
      var recv := CollectOverlaps(newPartitions[rank], newPartitions[rank + 1], oldPartitions);
      var send := CollectOverlaps(oldPartitions[rank], oldPartitions[rank + 1], newPartitions);
      plan := Migrate(recv, send);
    }
  }

  // ---------------------------------------------------------------------------
  // Neighbours
  // ---------------------------------------------------------------------------

  /** Node j owns at least one row. */
  predicate Occupied(p: seq<int>, j: int)
    requires 0 <= j && j + 1 < |p|
  {
    p[j] != p[j + 1]
  }

  /** The node `k` steps after `rank` on a ring of `size` nodes (0 <= k <= size). */
  function RingForward(rank: nat, k: nat, size: nat): nat
    requires rank < size && k <= size
  {
    if rank + k < size then rank + k else rank + k - size
  }

  /** The node `k` steps before `rank` on a ring of `size` nodes (0 <= k <= size). */
  function RingBackward(rank: nat, k: nat, size: nat): nat
    requires rank < size && k <= size
  {
    if rank >= k then rank - k else rank - k + size
  }

  /** Steps forward from `rank` to `r` (a full turn if r == rank). */
  function ForwardDistance(rank: nat, r: nat, size: nat): nat
    requires rank < size && r < size
  {
    if r == rank then size else if r > rank then r - rank else r + size - rank
  }

  /** Steps backward from `rank` to `r` (a full turn if r == rank). */
  function BackwardDistance(rank: nat, r: nat, size: nat): nat
    requires rank < size && r < size
  {
    if r == rank then size else if r < rank then rank - r else rank + size - r
  }

  /** The source's `(size + x + 1) % size` and `(size + x - 1) % size` for a node x. */
  lemma RingMod(x: nat, size: nat)
    requires x < size
    ensures (size + x + 1) % size == if x + 1 < size then x + 1 else 0
    ensures (size + x - 1) % size == if x >= 1 then x - 1 else size - 1
  {
  }

  /** `lowerNeighbor`: the next node after `rank` that owns rows; -1 at the bottom edge, or cycling
      around on a wrapping topology and giving `rank` itself when no other node owns rows. */
  method LowerNeighbor(partitions: seq<int>, rank: nat, size: nat, wrapEdges: bool) returns (r: int)
    requires rank < size && |partitions| == size + 1
    ensures !wrapEdges ==> (r == -1 || (rank < r < size && Occupied(partitions, r)))
    ensures !wrapEdges ==>
              forall j :: rank < j < (if r == -1 then size else r) ==> !Occupied(partitions, j)
    ensures wrapEdges ==> 0 <= r < size && (r == rank || Occupied(partitions, r))
    ensures wrapEdges ==> forall k :: 1 <= k < ForwardDistance(rank, r, size) ==>
              !Occupied(partitions, RingForward(rank, k, size))
  {
    if wrapEdges {
      RingMod(rank, size);
      r := (size + rank + 1) % size;
      ghost var k := 1;
      while r != rank && partitions[r] == partitions[r + 1]
        invariant 1 <= k <= size && r == RingForward(rank, k, size)
        invariant ForwardDistance(rank, r, size) == k
        invariant forall k' :: 1 <= k' < k ==> !Occupied(partitions, RingForward(rank, k', size))
        decreases size - k
      {
        RingMod(r, size);
        r := (size + r + 1) % size;
        k := k + 1;
      }
    } else {
      r := rank + 1;
      while r != size && partitions[r] == partitions[r + 1]
        invariant rank < r <= size
        invariant forall j :: rank < j < r ==> !Occupied(partitions, j)
      {
        r := r + 1;
      }
      if r == size {
        r := -1;
      }
    }
  }

  /** `upperNeighbor`: the nearest node before `rank` that owns rows; -1 at the top edge, or
      cycling around on a wrapping topology and giving `rank` itself when no other node owns rows. */
  method UpperNeighbor(partitions: seq<int>, rank: nat, size: nat, wrapEdges: bool) returns (r: int)
    requires rank < size && |partitions| == size + 1
    ensures !wrapEdges ==> (r == -1 || (0 <= r < rank && Occupied(partitions, r)))
    ensures !wrapEdges ==> forall j :: r < j < rank ==> !Occupied(partitions, j)
    ensures wrapEdges ==> 0 <= r < size && (r == rank || Occupied(partitions, r))
    ensures wrapEdges ==> forall k :: 1 <= k < BackwardDistance(rank, r, size) ==>
              !Occupied(partitions, RingBackward(rank, k, size))
  {
    if wrapEdges {
      RingMod(rank, size);
      r := (size + rank - 1) % size;
      ghost var k := 1;
      while r != rank && partitions[r] == partitions[r + 1]
        invariant 1 <= k <= size && r == RingBackward(rank, k, size)
        invariant BackwardDistance(rank, r, size) == k
        invariant forall k' :: 1 <= k' < k ==> !Occupied(partitions, RingBackward(rank, k', size))
        decreases size - k
      {
        RingMod(r, size);
        r := (size + r - 1) % size;
        k := k + 1;
      }
    } else {
      r := rank - 1;
      while r >= 0 && partitions[r] == partitions[r + 1]
        invariant -1 <= r < rank
        invariant forall j :: r < j < rank ==> !Occupied(partitions, j)
      {
        r := r - 1;
      }
    }
  }

  // ---------------------------------------------------------------------------
  // Redistribution
  // ---------------------------------------------------------------------------

  /** Rows [start, end) exchanged with node `peer`. */
  datatype Transfer = Transfer(peer: nat, start: int, end: int)

  /** What `redistributeGrid` does: nothing for an unchanged partition, else receive and send lists. */
  datatype Migration = Unchanged | Migrate(recv: seq<Transfer>, send: seq<Transfer>)

  function Max(a: int, b: int): int { if a >= b then a else b }
  function Min(a: int, b: int): int { if a <= b then a else b }

  /** The non-empty overlaps of [lo, hi) with the stripes of `parts`, from stripe `i` on. */
  function OverlapsFrom(lo: int, hi: int, parts: seq<int>, i: nat): seq<Transfer>
    requires |parts| >= 1 && i <= |parts| - 1
    decreases |parts| - 1 - i
  {
    if i == |parts| - 1 then []
    else
      var s, e := Max(lo, parts[i]), Min(hi, parts[i + 1]);
      (if e > s then [Transfer(i, s, e)] else []) + OverlapsFrom(lo, hi, parts, i + 1)
  }

  function RedistributionPlan(oldPartitions: seq<int>, newPartitions: seq<int>, rank: nat): Migration
    requires |oldPartitions| == |newPartitions| && rank + 1 < |newPartitions|
  {
    if newPartitions == oldPartitions then Unchanged
    else Migrate(OverlapsFrom(newPartitions[rank], newPartitions[rank + 1], oldPartitions, 0),
                 OverlapsFrom(oldPartitions[rank], oldPartitions[rank + 1], newPartitions, 0))
  }

  /** The intersection loop of `redistributeGrid`. */
  method CollectOverlaps(lo: int, hi: int, parts: seq<int>) returns (ts: seq<Transfer>)
    requires |parts| >= 1
    ensures ts == OverlapsFrom(lo, hi, parts, 0)
  {
    ts := [];
    var i := 0;
    while i < |parts| - 1
      invariant 0 <= i <= |parts| - 1
      invariant ts + OverlapsFrom(lo, hi, parts, i) == OverlapsFrom(lo, hi, parts, 0)
    {
      var s := Max(lo, parts[i]);
      var e := Min(hi, parts[i + 1]);
      if e > s {
        ts := ts + [Transfer(i, s, e)];
      }
      i := i + 1;
    }
  }

  /** A transfer appears in the list exactly when it is the non-empty overlap with that stripe. */
  lemma {:induction false} OverlapsMembership(lo: int, hi: int, parts: seq<int>, i: nat, t: Transfer)
    requires |parts| >= 1 && i <= |parts| - 1
    ensures t in OverlapsFrom(lo, hi, parts, i) <==>
              i <= t.peer < |parts| - 1 &&
              t.start == Max(lo, parts[t.peer]) && t.end == Min(hi, parts[t.peer + 1]) &&
              t.end > t.start
    decreases |parts| - 1 - i
  {
    if i < |parts| - 1 {
      OverlapsMembership(lo, hi, parts, i + 1, t);
    }
  }

  /** Every send has its matching receive: node `a` sends rows [s, e) to node `b` exactly when
      node `b` receives rows [s, e) from node `a`. */
  lemma SendsMatchReceives(oldP: seq<int>, newP: seq<int>, a: nat, b: nat, s: int, e: int)
    requires |oldP| == |newP| && a + 1 < |newP| && b + 1 < |newP| && oldP != newP
    ensures Transfer(b, s, e) in RedistributionPlan(oldP, newP, a).send <==>
            Transfer(a, s, e) in RedistributionPlan(oldP, newP, b).recv
  {
    OverlapsMembership(oldP[a], oldP[a + 1], newP, 0, Transfer(b, s, e));
    OverlapsMembership(newP[b], newP[b + 1], oldP, 0, Transfer(a, s, e));
  }

  /** The rows a list of transfers moves. */
  function TransferRows(ts: seq<Transfer>): set<int>
  {
    if ts == [] then {} else FillRegion(ts[0].start, ts[0].end) + TransferRows(ts[1..])
  }

  lemma {:induction false} TransferRowsAppend(a: seq<Transfer>, b: seq<Transfer>)
    ensures TransferRows(a + b) == TransferRows(a) + TransferRows(b)
  {
    if a != [] {
      assert (a + b)[1..] == a[1..] + b;
      TransferRowsAppend(a[1..], b);
    } else {
      assert a + b == b;
    }
  }

  /** Against a non-decreasing partition, the overlaps from stripe i on cover exactly the rows of
      [lo, hi) that lie in stripes i and later. */
  lemma {:induction false} OverlapsCover(lo: int, hi: int, parts: seq<int>, i: nat)
    requires |parts| >= 1 && i <= |parts| - 1 && NonDecreasing(parts)
    ensures TransferRows(OverlapsFrom(lo, hi, parts, i)) ==
              FillRegion(Max(lo, parts[i]), Min(hi, parts[|parts| - 1]))
    decreases |parts| - 1 - i
  {
    var last := parts[|parts| - 1];
    if i == |parts| - 1 {
      forall r ensures r !in FillRegion(Max(lo, parts[i]), Min(hi, last)) {
        FillRegionRows(Max(lo, parts[i]), Min(hi, last), r);
      }
    } else {
      OverlapsCover(lo, hi, parts, i + 1);
      var s, e := Max(lo, parts[i]), Min(hi, parts[i + 1]);
      var head := if e > s then [Transfer(i, s, e)] else [];
      TransferRowsAppend(head, OverlapsFrom(lo, hi, parts, i + 1));
      assert TransferRows(head) == FillRegion(s, e) by {
        if e > s {
          assert head[1..] == [];
        } else {
          forall r ensures r !in FillRegion(s, e) { FillRegionRows(s, e, r); }
        }
      }
      forall r ensures r in FillRegion(s, e) + FillRegion(Max(lo, parts[i + 1]), Min(hi, last)) <==>
                       r in FillRegion(Max(lo, parts[i]), Min(hi, last))
      {
        FillRegionRows(s, e, r);
        FillRegionRows(Max(lo, parts[i + 1]), Min(hi, last), r);
        FillRegionRows(Max(lo, parts[i]), Min(hi, last), r);
      }
    }
  }

  /** Migration is complete: what a node receives (from every node, itself included) is exactly its
      new stripe, and what it sends is exactly its old stripe, when both partitions cover the same
      grid [0, h). */
  lemma MigrationCoversStripes(oldP: seq<int>, newP: seq<int>, rank: nat)
    requires |oldP| == |newP| && rank + 1 < |newP| && oldP != newP
    requires NonDecreasing(oldP) && NonDecreasing(newP)
    requires oldP[0] == newP[0] && oldP[|oldP| - 1] == newP[|newP| - 1]
    ensures TransferRows(RedistributionPlan(oldP, newP, rank).recv) == FillRegion(newP[rank], newP[rank + 1])
    ensures TransferRows(RedistributionPlan(oldP, newP, rank).send) == FillRegion(oldP[rank], oldP[rank + 1])
  {
    OverlapsCover(newP[rank], newP[rank + 1], oldP, 0);
    OverlapsCover(oldP[rank], oldP[rank + 1], newP, 0);
  }

  /** The rebalance of 12 rows over three nodes from [0,4,8,12] to [0,5,9,12]. */
  lemma RebalanceExample()
    ensures RedistributionPlan([0, 4, 8, 12], [0, 5, 9, 12], 0) ==
              Migrate([Transfer(0, 0, 4), Transfer(1, 4, 5)], [Transfer(0, 0, 4)])
    ensures RedistributionPlan([0, 4, 8, 12], [0, 5, 9, 12], 1) ==
              Migrate([Transfer(1, 5, 8), Transfer(2, 8, 9)], [Transfer(0, 4, 5), Transfer(1, 5, 8)])
    ensures RedistributionPlan([0, 4, 8, 12], [0, 5, 9, 12], 2) ==
              Migrate([Transfer(2, 9, 12)], [Transfer(1, 8, 9), Transfer(2, 9, 12)])
    ensures RedistributionPlan([0, 4, 8, 12], [0, 4, 8, 12], 1) == Unchanged
  {
    var o, n := [0, 4, 8, 12], [0, 5, 9, 12];
    assert o != n by { assert o[1] != n[1]; }
    RebalanceRecv(o, n);
    RebalanceSend(o, n);
  }

  /** The receive lists of the example, stripe by stripe. */
  lemma RebalanceRecv(o: seq<int>, n: seq<int>)
    requires o == [0, 4, 8, 12] && n == [0, 5, 9, 12]
    ensures OverlapsFrom(0, 5, o, 0) == [Transfer(0, 0, 4), Transfer(1, 4, 5)]
    ensures OverlapsFrom(5, 9, o, 0) == [Transfer(1, 5, 8), Transfer(2, 8, 9)]
    ensures OverlapsFrom(9, 12, o, 0) == [Transfer(2, 9, 12)]
  {
    assert OverlapsFrom(0, 5, o, 3) == [] && OverlapsFrom(0, 5, o, 2) == [];
    assert OverlapsFrom(5, 9, o, 3) == [] && OverlapsFrom(5, 9, o, 2) == [Transfer(2, 8, 9)];
    assert OverlapsFrom(5, 9, o, 1) == [Transfer(1, 5, 8), Transfer(2, 8, 9)];
    assert OverlapsFrom(9, 12, o, 3) == [] && OverlapsFrom(9, 12, o, 2) == [Transfer(2, 9, 12)];
    assert OverlapsFrom(9, 12, o, 1) == [Transfer(2, 9, 12)];
  }

  /** The send lists of the example, stripe by stripe. */
  lemma RebalanceSend(o: seq<int>, n: seq<int>)
    requires o == [0, 4, 8, 12] && n == [0, 5, 9, 12]
    ensures OverlapsFrom(0, 4, n, 0) == [Transfer(0, 0, 4)]
    ensures OverlapsFrom(4, 8, n, 0) == [Transfer(0, 4, 5), Transfer(1, 5, 8)]
    ensures OverlapsFrom(8, 12, n, 0) == [Transfer(1, 8, 9), Transfer(2, 9, 12)]
  {
    assert OverlapsFrom(0, 4, n, 3) == [] && OverlapsFrom(0, 4, n, 2) == [];
    assert OverlapsFrom(0, 4, n, 1) == [];
    assert OverlapsFrom(4, 8, n, 3) == [] && OverlapsFrom(4, 8, n, 2) == [];
    assert OverlapsFrom(8, 12, n, 3) == [] && OverlapsFrom(8, 12, n, 2) == [Transfer(2, 9, 12)];
    assert OverlapsFrom(8, 12, n, 1) == [Transfer(1, 8, 9), Transfer(2, 9, 12)];
  }
}
