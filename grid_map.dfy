/**
 * The simulation engine: the column pass a worker runs over its range, and the
 * GridMap object holding the current, next and scratch buffers, one completion
 * flag per worker and the dirty marker the renderer consumes.
 *
 * Threads are not modelled. Each thread's loop body becomes one method
 * (UpdateGridStep for a worker, GridMapUpdaterStep for the coordinator, Update
 * for the consumer), and Round runs one generation as a sequence of those steps.
 */
module Simulation {
  import opened Wrappers
  import opened LifeRules
  import opened Partition

  /** ng holds the next generation of g in every cell. */
  ghost predicate IsNextGeneration(g: array2<int>, ng: array2<int>)
    reads g, ng
    requires ng.Length0 == g.Length0 && ng.Length1 == g.Length1
  {
    forall x, y :: 0 <= x < g.Length0 && 0 <= y < g.Length1 ==> ng[x, y] == NextCell(g, x, y)
  }

  /**
   * One worker pass: for every column in [iMin, iMax) and every row, write the
   * next state of g's cell into ng. g is only read; ng is written in those
   * columns and nowhere else.
   */
  method UpdateColumns(g: array2<int>, ng: array2<int>, iMin: int, iMax: int)
    requires g != ng
    requires ng.Length0 == g.Length0 && ng.Length1 == g.Length1
    requires iMin < iMax ==> 0 <= iMin && iMax <= g.Length0
    modifies ng
    ensures unchanged(g)
    ensures forall x, y :: 0 <= x < ng.Length0 && 0 <= y < ng.Length1 ==>
      ng[x, y] == if iMin <= x < iMax then NextCell(g, x, y) else old(ng[x, y])
    ensures forall x, y :: iMin <= x < iMax && 0 <= y < ng.Length1 ==> ng[x, y] == 0 || ng[x, y] == 1
  {
    var width := g.Length0;
    var height := g.Length1;
    var i := iMin;
    while i < iMax
      invariant iMin <= i && (iMin < iMax ==> i <= iMax) && (iMax <= iMin ==> i == iMin)
      invariant forall x, y :: 0 <= x < width && 0 <= y < height ==>
        ng[x, y] == if iMin <= x < i then NextCell(g, x, y) else old(ng[x, y])
    {
      var j := 0;
      while j < height
        invariant 0 <= j <= height
        invariant forall x, y :: 0 <= x < width && 0 <= y < height ==>
          ng[x, y] == if iMin <= x < i || (x == i && y < j) then NextCell(g, x, y) else old(ng[x, y])
      {
        var aliveNeighbours := CountAliveNeighbours(g, i, j, width, height);
        ng[i, j] := NextState(g[i, j], aliveNeighbours);
        j := j + 1;
      }
      i := i + 1;
    }
  }

  class GridMap {
    /** The number of worker threads (a configuration value). */
    const numThreads: int
    /** threadsIsDone[k]: worker k has finished its pass for this round. */
    var threadsIsDone: array<bool>
    /** A rotation happened that the consumer has not picked up yet. */
    var gridMapIsDirty: bool
    /** The current generation, read by every worker. */
    var gridMap: array2<int>
    /** The next generation, written by the workers, each in its own columns. */
    var newGridMap: array2<int>
    /** The buffer that was current before the last rotation. */
    var oldGridMap: array2<int>
    /** ranges[k] is the column range [i_min, i_max) worker k was started with. */
    var ranges: seq<ColumnRange>

    /** The three buffers share one size, and current and next are different arrays. */
    ghost predicate Buffers()
      reads this
    {
      gridMap != newGridMap &&
      newGridMap.Length0 == gridMap.Length0 && newGridMap.Length1 == gridMap.Length1 &&
      oldGridMap.Length0 == gridMap.Length0 && oldGridMap.Length1 == gridMap.Length1
    }

    /** The workers have been started: one flag and one range per worker, and
        the ranges tile the grid's columns. */
    ghost predicate Running()
      reads this
    {
      Buffers() && numThreads >= 1 &&
      threadsIsDone.Length == numThreads && |ranges| == numThreads &&
      Tiles(ranges, gridMap.Length0)
    }

    /** Some finished worker's range contains column x. */
    ghost predicate DoneCovers(x: int)
      reads this, threadsIsDone
      requires Running()
    {
      exists k :: 0 <= k < numThreads && threadsIsDone[k] && ranges[k].Contains(x)
    }

    /** Set-up before the workers start: `initial` is the seed generation (loading
        it from an image is not modelled); the two other buffers are fresh. */
    constructor (initial: array2<int>, numThreads: int)
      ensures this.numThreads == numThreads
      ensures gridMap == initial && fresh(newGridMap) && fresh(oldGridMap)
      ensures Buffers() && !gridMapIsDirty && ranges == [] && threadsIsDone.Length == 0
    {
      this.numThreads := numThreads;
      gridMap := initial;
      newGridMap := new int[initial.Length0, initial.Length1];
      oldGridMap := new int[initial.Length0, initial.Length1];
      gridMapIsDirty := false;
      threadsIsDone := new bool[0];
      ranges := [];
    }

    /**
     * Allocates one completion flag per worker (all clear) and gives every worker
     * its column range. A negative worker count fails on the first array
     * allocation (the thread array when numThreads <= -2, the flag array when -1),
     * a zero count on the division inside the range computation.
     */
    method StartThreads() returns (error: Option<StartError>)
      requires Buffers()
      modifies this
      ensures Buffers()
      ensures gridMap == old(gridMap) && newGridMap == old(newGridMap) && oldGridMap == old(oldGridMap)
      ensures gridMapIsDirty == old(gridMapIsDirty)
      ensures numThreads < 0 ==>
        error == Some(NegativeArrayLength) && threadsIsDone == old(threadsIsDone) && ranges == old(ranges)
      ensures numThreads == 0 ==>
        error == Some(DivideByZero) && fresh(threadsIsDone) && threadsIsDone.Length == 0 && ranges == old(ranges)
      ensures numThreads >= 1 ==> error == None && Running() && fresh(threadsIsDone)
      ensures numThreads >= 1 ==> Balanced(ranges, gridMap.Length0, numThreads)
      ensures numThreads >= 1 ==> forall k :: 0 <= k < numThreads ==> !threadsIsDone[k]
    {
      if numThreads < 0 {
        return Some(NegativeArrayLength);
      }
      threadsIsDone := new bool[numThreads](_ => false);
      var width := gridMap.Length0;
      var planned := PlanColumns(width, numThreads);
      if planned.Failure? {
        return Some(planned.error);
      }
      ranges := planned.value;
      error := None;
    }

    /**
     * One iteration of worker k's loop. If its flag is still set (the coordinator
     * has not started a new round) it does nothing; otherwise it runs its pass
     * over its columns, from gridMap into newGridMap, and sets its flag.
     */
    method UpdateGridStep(k: int)
      requires Running() && 0 <= k < numThreads
      modifies newGridMap, threadsIsDone
      ensures old(threadsIsDone[k]) ==> unchanged(newGridMap) && unchanged(threadsIsDone)
      ensures !old(threadsIsDone[k]) ==> threadsIsDone[..] == old(threadsIsDone[..])[k := true]
      ensures !old(threadsIsDone[k]) ==>
        forall x, y :: 0 <= x < newGridMap.Length0 && 0 <= y < newGridMap.Length1 ==>
          newGridMap[x, y] == if ranges[k].Contains(x) then NextCell(gridMap, x, y) else old(newGridMap[x, y])
    {
      if threadsIsDone[k] {
        return;
      }
      TilesWithin(ranges, gridMap.Length0, k);
      UpdateColumns(gridMap, newGridMap, ranges[k].lo, ranges[k].hi);
      threadsIsDone[k] := true;
    }

    /** The coordinator's test: have all workers finished this round? */
    method AllThreadsDone() returns (allDone: bool)
      requires threadsIsDone.Length == numThreads
      ensures allDone <==> forall k :: 0 <= k < numThreads ==> threadsIsDone[k]
    {
      var shouldContinue := false;
      var i := 0;
      while i < numThreads
        invariant 0 <= i <= numThreads
        invariant !shouldContinue
        invariant forall k :: 0 <= k < i ==> threadsIsDone[k]
      {
        if !threadsIsDone[i] {
          shouldContinue := true;
          break;
        }
        i := i + 1;
      }
      allDone := !shouldContinue;
    }

    /**
     * One iteration of the coordinator's loop. When every worker is done it
     * rotates the buffers (the next generation becomes current, the former
     * current becomes both the scratch and the next write buffer), marks the
     * grid dirty and clears every flag. Otherwise nothing changes.
     */
    method GridMapUpdaterStep() returns (rotated: bool)
      requires Running()
      modifies this, threadsIsDone
      ensures Running() && threadsIsDone == old(threadsIsDone) && ranges == old(ranges)
      ensures rotated <==> forall k :: 0 <= k < numThreads ==> old(threadsIsDone[k])
      ensures rotated ==>
        gridMap == old(newGridMap) && newGridMap == old(gridMap) && oldGridMap == old(gridMap) &&
        gridMapIsDirty && forall k :: 0 <= k < numThreads ==> !threadsIsDone[k]
      ensures !rotated ==>
        gridMap == old(gridMap) && newGridMap == old(newGridMap) && oldGridMap == old(oldGridMap) &&
        gridMapIsDirty == old(gridMapIsDirty) && unchanged(threadsIsDone)
    {
      var allDone := AllThreadsDone();
      if !allDone {
        return false;
      }
      oldGridMap := gridMap;
      gridMap := newGridMap;
      gridMapIsDirty := true;
      newGridMap := oldGridMap;
      var i := 0;
      while i < numThreads
        modifies threadsIsDone
        invariant 0 <= i <= numThreads
        invariant forall k :: 0 <= k < i ==> !threadsIsDone[k]
      {
        threadsIsDone[i] := false;
        i := i + 1;
      }
      rotated := true;
    }

    /**
     * The consumer's per-frame check: if a rotation is pending, hand over the
     * current generation once and clear the marker; otherwise deliver nothing.
     */
    method Update() returns (delivered: Option<array2<int>>)
      modifies this`gridMapIsDirty
      ensures old(gridMapIsDirty) ==> delivered == Some(gridMap)
      ensures !old(gridMapIsDirty) ==> delivered == None
      ensures !gridMapIsDirty
    {
      delivered := None;
      if gridMapIsDirty {
        delivered := Some(gridMap);
        gridMapIsDirty := false;
      }
    }

    /**
     * One generation as a sequence of steps: the workers are polled in the
     * given order (every worker at least once, repeats allowed), then the
     * coordinator runs. Starting with all flags clear, the round ends with the
     * buffers rotated, the grid dirty, all flags clear again, and gridMap
     * holding the next generation of the former gridMap, whatever the order.
     */
    method Round(order: seq<int>)
      requires Running()
      requires forall k :: 0 <= k < numThreads ==> !threadsIsDone[k]
      requires forall t :: 0 <= t < |order| ==> 0 <= order[t] < numThreads
      requires forall k :: 0 <= k < numThreads ==> k in order
      modifies this, newGridMap, threadsIsDone
      ensures Running() && threadsIsDone == old(threadsIsDone) && ranges == old(ranges)
      ensures gridMap == old(newGridMap) && newGridMap == old(gridMap) && oldGridMap == old(gridMap)
      ensures gridMapIsDirty
      ensures forall k :: 0 <= k < numThreads ==> !threadsIsDone[k]
      ensures unchanged(newGridMap)
      ensures IsNextGeneration(newGridMap, gridMap)
    {
      var t := 0;
      while t < |order|
        modifies newGridMap, threadsIsDone
        invariant 0 <= t <= |order|
        invariant forall k :: 0 <= k < numThreads ==> (threadsIsDone[k] <==> k in order[..t])
        invariant forall x, y :: 0 <= x < gridMap.Length0 && 0 <= y < gridMap.Length1 ==>
          newGridMap[x, y] == if DoneCovers(x) then NextCell(gridMap, x, y) else old(newGridMap[x, y])
      {
        var k := order[t];
        label before_step:
        UpdateGridStep(k);
        assert order[..t + 1] == order[..t] + [k];
        forall x | 0 <= x < gridMap.Length0
          ensures DoneCovers(x) <==> old@before_step(DoneCovers(x)) || ranges[k].Contains(x)
        {
        }
        t := t + 1;
      }
      assert order[..|order|] == order;
      forall x, y | 0 <= x < gridMap.Length0 && 0 <= y < gridMap.Length1
        ensures newGridMap[x, y] == NextCell(gridMap, x, y)
      {
        TilesCover(ranges, gridMap.Length0, x);
      }
      var rotated := GridMapUpdaterStep();
    }
  }
}
