/**
 * `TeamAdventure`: the same three algorithms shared out among
 * `numberOfShamans` workers. Every batch of work is a queue of tasks that is
 * drained front to back before the next batch starts; here the tasks of a
 * queue run one after the other in that order. Each operation is proved equal
 * to the specification the lonesome explorer meets, so both adventures give
 * the same results.
 */
module Team {
  import opened Sand
  import Adventure
  import opened Eggs
  import opened Crystals
  import opened Slices
  import Lonesome

  /** A worker count of at least one: the division by `numberOfShamans` in
      `packEggs` and `selectBestCrystal` needs it. */
  type Positive = k: nat | k >= 1 witness 1

  class TeamAdventure {
    const numberOfShamans: Positive

    /** Below or at this block size a pass of `arrangeSand` is done inline. */
    const MinSize: nat := 8

    constructor(numberOfShamansArg: Positive)
      ensures numberOfShamans == numberOfShamansArg
    {
      numberOfShamans := numberOfShamansArg;
    }

    /**
     * `packEggs`: zeroes the table, then fills it row by row; each row is cut
     * into column slices, one `knapsack` task per slice. The result is the same
     * table entry, and so the same optimum, as `LonesomeAdventure::packEggs`.
     */
    method PackEggs(eggs: seq<Egg>, bag: BottomlessBag) returns (result: nat)
      ensures result == Best(eggs, |eggs|, bag.capacity)
      ensures forall pick ::
        |pick| == |eggs| && PackedSize(eggs, pick) <= bag.capacity ==> PackedWeight(eggs, pick) <= result
      ensures exists pick ::
        |pick| == |eggs| && PackedSize(eggs, pick) <= bag.capacity && PackedWeight(eggs, pick) == result
    {
      var W, n := bag.capacity, |eggs|;
      var m := new nat[n + 1, W + 1];
      for i := 0 to n + 1
        invariant forall row, c :: 0 <= row < i && 0 <= c <= W ==> m[row, c] == 0
      {
        for j := 0 to W + 1
          invariant forall row, c :: 0 <= row < i && 0 <= c <= W ==> m[row, c] == 0
          invariant forall c :: 0 <= c < j ==> m[i, c] == 0
        {
          m[i, j] := 0;
        }
      }
      for i := 1 to n + 1
        invariant forall row, c :: 0 <= row < i && 0 <= c <= W ==> m[row, c] == Best(eggs, row, c)
      {
        var tasks := SliceRow(W + 1);
        RowSlicesPartition(W + 1, numberOfShamans);
        FillRow(m, eggs, i, tasks);
      }
      result := m[n, W];
      KnapsackOptimum(eggs, W);
    }

    /** The slices `packEggs` submits for one row of `width` columns: slices of
        width `width / numberOfShamans` while one fits (none if that width is
        0), then the rest of the row. */
    method SliceRow(width: nat) returns (tasks: seq<Slice>)
      ensures tasks == RowSlices(width, numberOfShamans)
    {
      var size := width / numberOfShamans;
      var left := 0;
      tasks := [];
      if size > 0 {
        while left + size <= width
          invariant left <= width
          invariant tasks + SlicesFrom(width, size, left) == RowSlices(width, numberOfShamans)
          decreases width - left
        {
          tasks := tasks + [Slice(left, left + size)];
          left := left + size;
        }
      }
      tasks := tasks + [Slice(left, width)];
    }

    /** Drains the queue of slice tasks of row `i`: when the slices partition the
        row and the rows before `i` hold the table entries, row `i` does too
        afterwards. */
    method FillRow(m: array2<nat>, eggs: seq<Egg>, i: nat, tasks: seq<Slice>)
      requires 1 <= i < m.Length0 == |eggs| + 1
      requires Chain(tasks, 0, m.Length1)
      requires forall row, c :: 0 <= row < i && 0 <= c < m.Length1 ==> m[row, c] == Best(eggs, row, c)
      modifies m
      ensures forall row, c :: 0 <= row <= i && 0 <= c < m.Length1 ==> m[row, c] == Best(eggs, row, c)
      ensures forall row, c :: i < row < m.Length0 && 0 <= c < m.Length1 ==> m[row, c] == old(m[row, c])
    {
      var queue := tasks;
      ghost var done := 0;
      while queue != []
        invariant Chain(queue, done, m.Length1)
        invariant forall row, c :: 0 <= row < i && 0 <= c < m.Length1 ==> m[row, c] == Best(eggs, row, c)
        invariant forall c :: 0 <= c < done ==> m[i, c] == Best(eggs, i, c)
        invariant forall row, c :: i < row < m.Length0 && 0 <= c < m.Length1 ==> m[row, c] == old(m[row, c])
        decreases |queue|
      {
        var t := queue[0];
        RunSlice(m, eggs, i, t.lo, t.hi);
        done := t.hi;
        queue := queue[1..];
      }
    }

    /** One slice task of row `i`: its cells get their table entries, and no
        other cell changes. */
    method RunSlice(m: array2<nat>, eggs: seq<Egg>, i: nat, left: nat, right: nat)
      requires 1 <= i < m.Length0 == |eggs| + 1 && left <= right <= m.Length1
      requires forall row, c :: 0 <= row < i && 0 <= c < m.Length1 ==> m[row, c] == Best(eggs, row, c)
      modifies m
      ensures forall c :: left <= c < right ==> m[i, c] == Best(eggs, i, c)
      ensures forall row, c :: 0 <= row < m.Length0 && 0 <= c < m.Length1 && !(row == i && left <= c < right) ==>
        m[row, c] == old(m[row, c])
    {
      Knapsack(m, eggs[i - 1], i, left, right);
      forall c | left <= c < right ensures m[i, c] == Best(eggs, i, c) {
        assert m[i - 1, c] == Best(eggs, i - 1, c);
        if eggs[i - 1].size <= c {
          assert m[i - 1, c - eggs[i - 1].size] == Best(eggs, i - 1, c - eggs[i - 1].size);
        }
      }
    }

    /** `knapsack`: fills the cells `[left, right)` of row `i` from row `i - 1`
        by the recurrence of the table, and writes nothing else. */
    method Knapsack(m: array2<nat>, egg: Egg, i: nat, left: nat, right: nat)
      requires 1 <= i < m.Length0 && left <= right <= m.Length1
      modifies m
      ensures forall c :: left <= c < right ==>
        m[i, c] == if egg.size > c then m[i - 1, c] else Adventure.Max(m[i - 1, c], egg.weight + m[i - 1, c - egg.size])
      ensures forall row, c :: 0 <= row < m.Length0 && 0 <= c < m.Length1 && !(row == i && left <= c < right) ==>
        m[row, c] == old(m[row, c])
    {
      for jw := left to right
        invariant forall c :: left <= c < jw ==>
          m[i, c] == if egg.size > c then m[i - 1, c] else Adventure.Max(m[i - 1, c], egg.weight + m[i - 1, c - egg.size])
        invariant forall row, c :: 0 <= row < m.Length0 && 0 <= c < m.Length1 && !(row == i && left <= c < jw) ==>
          m[row, c] == old(m[row, c])
      {
        if egg.size > jw {
          m[i, jw] := m[i - 1, jw];
        } else {
          m[i, jw] := Adventure.Max(m[i - 1, jw], egg.weight + m[i - 1, jw - egg.size]);
        }
      }
    }

    /**
     * `arrangeSand`: the passes of the bottom-up merge sort; a pass with block
     * size above `MinSize` submits its merges as a queue of tasks, a smaller one
     * merges inline exactly as `LonesomeAdventure::arrangeSand` does. Either
     * way the array ends up as the lonesome sort leaves it.
     */
    method ArrangeSand(a: array<GrainOfSand>)
      modifies a
      ensures a[..] == ArrangeSandSpec(old(a[..]))
      ensures Sorted(a[..]) && multiset(a[..]) == multiset(old(a[..])) && Stable(old(a[..]), a[..])
      ensures a.Length <= 1 ==> a[..] == old(a[..])
    {
      var n := a.Length;
      var currentSize := 2;
      while currentSize <= 2 * n
        invariant currentSize >= 2
        invariant SortPasses(a[..], currentSize) == ArrangeSandSpec(old(a[..]))
        decreases 2 * n + 1 - currentSize
      {
        ghost var before := a[..];
        Pass(a, currentSize);
        SortPassesStep(before, a[..], currentSize);
        currentSize := 2 * currentSize;
      }
      ArrangeSandIsStableSort(old(a[..]));
      if n <= 1 {
        ArrangeSandShort(old(a[..]));
      }
    }

    /** One pass of `arrangeSand` (the body of its outer loop): above `MinSize`
        the merges go through a task queue, otherwise they run inline. */
    method Pass(a: array<GrainOfSand>, currentSize: nat)
      requires currentSize >= 2
      modifies a
      ensures a[..] == RunTasks(old(a[..]), PassTasks(a.Length, currentSize, 0))
    {
      if currentSize > MinSize {
        var tasks := PassQueue(a.Length, currentSize);
        PassTasksValid(a.Length, currentSize, 0);
        RunQueue(a, tasks);
      } else {
        Lonesome.MergePass(a, currentSize);
      }
    }

    /** The merges one pass enqueues: the full blocks from left to right, then
        the tail block if its left half is complete. */
    method PassQueue(n: nat, currentSize: nat) returns (tasks: seq<MergeTask>)
      requires currentSize >= 2
      ensures tasks == PassTasks(n, currentSize, 0)
    {
      var left := 0;
      tasks := [];
      while left + currentSize - 1 < n
        invariant left <= n
        invariant tasks + PassTasks(n, currentSize, left) == PassTasks(n, currentSize, 0)
        decreases n - left
      {
        PassTasksUnfold(n, currentSize, left);
        tasks := tasks + [MergeTask(left, left + (currentSize - 1) / 2, left + currentSize - 1)];
        left := left + currentSize;
      }
      if left + (currentSize - 1) / 2 < n {
        tasks := tasks + [MergeTask(left, left + (currentSize - 1) / 2, n - 1)];
      }
    }

    /** Drains a queue of merge tasks front to back. */
    method RunQueue(a: array<GrainOfSand>, tasks: seq<MergeTask>)
      requires forall i :: 0 <= i < |tasks| ==> ValidTask(tasks[i], a.Length)
      modifies a
      ensures a[..] == RunTasks(old(a[..]), tasks)
    {
      var queue := tasks;
      while queue != []
        invariant forall i :: 0 <= i < |queue| ==> ValidTask(queue[i], a.Length)
        invariant RunTasks(a[..], queue) == RunTasks(old(a[..]), tasks)
        decreases |queue|
      {
        var t := queue[0];
        ghost var before := a[..];
        Adventure.Merge(a, t.left, t.mid, t.right);
        RunTasksCons(before, t, queue[1..]);
        assert queue == [t] + queue[1..];
        queue := queue[1..];
      }
    }

    /**
     * `selectBestCrystal`: the maximum of each of the `numberOfShamans` ranges
     * is computed by `intervalMax`, and those maxima are folded, in queue
     * order, with the same strict rule. The result is the one the lonesome
     * scan gives.
     */
    method SelectBestCrystal(crystals: seq<Crystal>) returns (maxCrystal: Crystal)
      ensures maxCrystal == Maximum(crystals)
      ensures forall i :: 0 <= i < |crystals| ==> !Crystals.Less(maxCrystal, crystals[i])
      ensures maxCrystal == Default || maxCrystal in crystals
    {
      var tasks := RangeMaxima(crystals);
      maxCrystal := Crystal(0);
      var queue := tasks;
      while queue != []
        invariant FoldPick(maxCrystal, queue) == FoldPick(Default, tasks)
        decreases |queue|
      {
        var best := queue[0];
        if Crystals.Less(maxCrystal, best) {
          maxCrystal := best;
        }
        queue := queue[1..];
      }
      CrystalRangesPartition(|crystals|, numberOfShamans);
      MaximaOfPartition(crystals, CrystalRanges(|crystals|, numberOfShamans));
      MaximumIsUpperBound(crystals);
      MaximumIsMemberOrDefault(crystals);
    }

    /** The `intervalMax` tasks of `selectBestCrystal`: `numberOfShamans - 1`
        ranges of length `n / numberOfShamans`, then the range up to `n`. */
    method RangeMaxima(crystals: seq<Crystal>) returns (tasks: seq<Crystal>)
      ensures tasks == Maxima(crystals, CrystalRanges(|crystals|, numberOfShamans))
    {
      var n := |crystals|;
      var size := n / numberOfShamans;
      var left: nat := 0;
      tasks := [];
      ghost var ranges: seq<Slice> := [];
      ghost var count: nat := numberOfShamans - 1;
      CrystalRangesPartition(n, numberOfShamans);
      for i := 1 to numberOfShamans
        invariant count == numberOfShamans - i
        invariant ranges + Ranges(count, size, left, n) == CrystalRanges(n, numberOfShamans)
        invariant Chain(Ranges(count, size, left, n), left, n)
        invariant tasks == Maxima(crystals, ranges)
      {
        RangesStep(count, size, left, n);
        var best := IntervalMax(crystals, left, left + size);
        CollectStep(crystals, CrystalRanges(n, numberOfShamans), ranges, tasks, count, size, left, n, best);
        tasks := tasks + [best];
        ranges := ranges + [Slice(left, left + size)];
        left := left + size;
        count := count - 1;
      }
      assert Ranges(0, size, left, n) == [Slice(left, n)];
      var best := IntervalMax(crystals, left, n);
      MaximaSnoc(crystals, ranges, Slice(left, n));
      tasks := tasks + [best];
      ranges := ranges + [Slice(left, n)];
    }

    /** `intervalMax`: the running maximum of `crystals[begin..end)`, seeded with
        the default crystal; an empty or reversed range gives the default. */
    method IntervalMax(crystals: seq<Crystal>, begin: nat, end: nat) returns (maxCrystal: Crystal)
      requires end <= |crystals|
      ensures maxCrystal == MaximumOver(crystals, Slice(begin, end))
      ensures begin <= end ==> maxCrystal == Maximum(crystals[begin..end])
      ensures end <= begin ==> maxCrystal == Default
    {
      maxCrystal := Crystal(0);
      var i := begin;
      while i < end
        invariant begin <= i && (i > begin ==> i <= end)
        invariant maxCrystal == MaximumOver(crystals, Slice(begin, i))
        decreases end - i
      {
        assert crystals[begin..i + 1][..i - begin] == crystals[begin..i];
        if Crystals.Less(maxCrystal, crystals[i]) {
          maxCrystal := crystals[i];
        }
        i := i + 1;
      }
    }
  }

  /** The next range of the crystal ranges, and the ranges after it. */
  lemma RangesStep(count: nat, size: nat, left: nat, n: nat)
    requires count >= 1 && Chain(Ranges(count, size, left, n), left, n)
    ensures left + size <= n
    ensures Ranges(count, size, left, n) == [Slice(left, left + size)] + Ranges(count - 1, size, left + size, n)
    ensures Chain(Ranges(count - 1, size, left + size, n), left + size, n)
  {
    assert Ranges(count, size, left, n)[1..] == Ranges(count - 1, size, left + size, n);
  }

  /** One round of the loop that submits the `intervalMax` tasks. */
  lemma CollectStep(crystals: seq<Crystal>, whole: seq<Slice>, ranges: seq<Slice>, tasks: seq<Crystal>,
                    count: nat, size: nat, left: nat, n: nat, best: Crystal)
    requires count >= 1
    requires ranges + Ranges(count, size, left, n) == whole
    requires Ranges(count, size, left, n) == [Slice(left, left + size)] + Ranges(count - 1, size, left + size, n)
    requires tasks == Maxima(crystals, ranges)
    requires best == MaximumOver(crystals, Slice(left, left + size))
    ensures (ranges + [Slice(left, left + size)]) + Ranges(count - 1, size, left + size, n) == whole
    ensures tasks + [best] == Maxima(crystals, ranges + [Slice(left, left + size)])
  {
    MaximaSnoc(crystals, ranges, Slice(left, left + size));
  }

  lemma {:induction false} MaximaSnoc(crystals: seq<Crystal>, ranges: seq<Slice>, r: Slice)
    ensures Maxima(crystals, ranges + [r]) == Maxima(crystals, ranges) + [MaximumOver(crystals, r)]
    decreases |ranges|
  {
    if ranges != [] {
      assert (ranges + [r])[1..] == ranges[1..] + [r];
      MaximaSnoc(crystals, ranges[1..], r);
    } else {
      assert ranges + [r] == [r];
    }
  }
}
