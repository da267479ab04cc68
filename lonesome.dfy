/**
 * `LonesomeAdventure`: the three algorithms run by a single explorer, one step
 * after the other. The class has no state of its own, so its operations are
 * methods of this module.
 */
module Lonesome {
  import opened Sand
  import Adventure
  import opened Eggs
  import Crystals

  /**
   * `packEggs`: fills the `(n + 1) x (W + 1)` table row by row, cell by cell,
   * and returns its last cell, which is the best total weight of eggs whose
   * total size fits the bag.
   */
  method PackEggs(eggs: seq<Egg>, bag: BottomlessBag) returns (r: nat)
    ensures r == Best(eggs, |eggs|, bag.capacity)
    ensures forall pick ::
      |pick| == |eggs| && PackedSize(eggs, pick) <= bag.capacity ==> PackedWeight(eggs, pick) <= r
    ensures exists pick ::
      |pick| == |eggs| && PackedSize(eggs, pick) <= bag.capacity && PackedWeight(eggs, pick) == r
    ensures eggs == [] ==> r == 0
  {
    var W, n := bag.capacity, |eggs|;
    var m := new nat[n + 1, W + 1]((_, _) => 0);
    for jw := 0 to W + 1
      invariant forall c :: 0 <= c < jw ==> m[0, c] == 0
    {
      m[0, jw] := 0;
    }
    for i := 1 to n + 1
      invariant forall row, c :: 0 <= row < i && 0 <= c <= W ==> m[row, c] == Best(eggs, row, c)
    {
      FillRow(m, eggs, i);
    }
    r := m[n, W];
    KnapsackOptimum(eggs, W);
  }

  /** The inner loop of `packEggs`: row `i` of the table, left to right, from
      row `i - 1`. */
  method FillRow(m: array2<nat>, eggs: seq<Egg>, i: nat)
    requires 1 <= i < m.Length0 == |eggs| + 1
    requires forall row, c :: 0 <= row < i && 0 <= c < m.Length1 ==> m[row, c] == Best(eggs, row, c)
    modifies m
    ensures forall row, c :: 0 <= row <= i && 0 <= c < m.Length1 ==> m[row, c] == Best(eggs, row, c)
    ensures forall row, c :: i < row < m.Length0 && 0 <= c < m.Length1 ==> m[row, c] == old(m[row, c])
  {
    for jw := 0 to m.Length1
      invariant forall row, c :: 0 <= row < i && 0 <= c < m.Length1 ==> m[row, c] == Best(eggs, row, c)
      invariant forall c :: 0 <= c < jw ==> m[i, c] == Best(eggs, i, c)
      invariant forall row, c :: i < row < m.Length0 && 0 <= c < m.Length1 ==> m[row, c] == old(m[row, c])
    {
      FillCell(m, eggs, i, jw);
    }
  }

  /** One cell of the table: `m[i][jw]` from the row above. */
  method FillCell(m: array2<nat>, eggs: seq<Egg>, i: nat, jw: nat)
    requires 1 <= i < m.Length0 == |eggs| + 1 && jw < m.Length1
    requires forall row, c :: 0 <= row < i && 0 <= c < m.Length1 ==> m[row, c] == Best(eggs, row, c)
    modifies m
    ensures forall row, c :: 0 <= row < m.Length0 && 0 <= c < m.Length1 ==>
      m[row, c] == if row == i && c == jw then Best(eggs, i, jw) else old(m[row, c])
  {
    if eggs[i - 1].size > jw {
      m[i, jw] := m[i - 1, jw];
    } else {
      m[i, jw] := Adventure.Max(m[i - 1, jw], eggs[i - 1].weight + m[i - 1, jw - eggs[i - 1].size]);
    }
  }

  /**
   * `arrangeSand`: the bottom-up merge sort. For block sizes 2, 4, 8, ... while
   * the block size is at most twice the length, merge the two halves of every
   * full block, then the partial tail block if its left half is complete.
   */
  method ArrangeSand(a: array<GrainOfSand>)
    modifies a
    ensures a[..] == ArrangeSandSpec(old(a[..]))
    ensures Sorted(a[..]) && multiset(a[..]) == multiset(old(a[..])) && Stable(old(a[..]), a[..])
    ensures a.Length <= 1 ==> a[..] == old(a[..])
  {
    var n := a.Length;
    var currentSize := 2;
    while currentSize <= 2 * n
      invariant currentSize >= 2
      invariant SortPasses(a[..], currentSize) == ArrangeSandSpec(old(a[..]))
      decreases 2 * n + 1 - currentSize
    {
      ghost var before := a[..];
      MergePass(a, currentSize);
      SortPassesStep(before, a[..], currentSize);
      currentSize := 2 * currentSize;
    }
    ArrangeSandIsStableSort(old(a[..]));
    if n <= 1 {
      ArrangeSandShort(old(a[..]));
    }
  }

  /** One pass of `arrangeSand` (the body of its outer loop, with `left` from 0):
      the merges of the full blocks from left to right, then of the tail block. */
  method MergePass(a: array<GrainOfSand>, currentSize: nat)
    requires currentSize >= 2
    modifies a
    ensures a[..] == RunTasks(old(a[..]), PassTasks(a.Length, currentSize, 0))
  {
    var n := a.Length;
    ghost var target := RunTasks(a[..], PassTasks(n, currentSize, 0));
    var left: nat := 0;
    while left + currentSize - 1 < n
      invariant left <= n
      invariant RunTasks(a[..], PassTasks(n, currentSize, left)) == target
      decreases n - left
    {
      left := MergeBlock(a, currentSize, left);
    }
    if left + (currentSize - 1) / 2 < n {
      MergeTail(a, currentSize, left);
    } else {
      assert PassTasks(n, currentSize, left) == [];
    }
  }

  /** One merge of a full block inside a pass, as the next task of the pass. */
  method MergeBlock(a: array<GrainOfSand>, size: nat, left: nat) returns (next: nat)
    requires size >= 2 && left + size - 1 < a.Length
    modifies a
    ensures next == left + size <= a.Length
    ensures a[..] == MergeAt(old(a[..]), MergeTask(left, left + (size - 1) / 2, left + size - 1))
    ensures RunTasks(a[..], PassTasks(a.Length, size, next)) == RunTasks(old(a[..]), PassTasks(a.Length, size, left))
  {
    Adventure.Merge(a, left, left + (size - 1) / 2, left + size - 1);
    next := left + size;
    BlockStep(old(a[..]), a[..], size, left, next);
  }

  /** The merge of the partial tail block of a pass: the last task of the pass. */
  method MergeTail(a: array<GrainOfSand>, size: nat, left: nat)
    requires size >= 2 && a.Length <= left + size - 1 && left + (size - 1) / 2 < a.Length
    modifies a
    ensures a[..] == RunTasks(old(a[..]), PassTasks(a.Length, size, left))
  {
    var t := MergeTask(left, left + (size - 1) / 2, a.Length - 1);
    Adventure.Merge(a, t.left, t.mid, t.right);
    assert PassTasks(a.Length, size, left) == [t];
    RunTasksCons(old(a[..]), t, []);
  }

  /**
   * `selectBestCrystal`: a running maximum seeded with the default crystal,
   * replaced only by a strictly greater crystal.
   */
  method SelectBestCrystal(crystals: seq<Crystals.Crystal>) returns (max: Crystals.Crystal)
    ensures max == Crystals.Maximum(crystals)
    ensures forall i :: 0 <= i < |crystals| ==> !Crystals.Less(max, crystals[i])
    ensures max == Crystals.Default || max in crystals
    ensures crystals == [] ==> max == Crystals.Default
  {
    max := Crystals.Default;
    for i := 0 to |crystals|
      invariant max == Crystals.Maximum(crystals[..i])
    {
      assert crystals[..i + 1][..i] == crystals[..i];
      if Crystals.Less(max, crystals[i]) {
        max := crystals[i];
      }
    }
    assert crystals[..|crystals|] == crystals;
    Crystals.MaximumIsUpperBound(crystals);
    Crystals.MaximumIsMemberOrDefault(crystals);
  }
}
