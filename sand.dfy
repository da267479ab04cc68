/**
 * Grains of sand and the specification of the bottom-up merge sort
 * (`arrangeSand`) that both adventures run.
 *
 * A pass with block size `size` is the list of merges the source submits for
 * it (`PassTasks`); the whole sort is the passes for block sizes 2, 4, 8, ...
 * while the block size is at most twice the length (`SortPasses`). `Pass` is an
 * independent, position-free definition of one pass, used to prove that the
 * result is sorted, a permutation of the input and stable.
 */
module Sand {

  /** A grain as the sort sees it: `key` is what `<` compares; `id` stands for
      everything else a grain carries, which `<` does not look at, so grains
      with equal keys can still be told apart (and stability means something). */
  datatype GrainOfSand = GrainOfSand(key: int, id: int)

  /** The strict order `GrainOfSand < GrainOfSand` the merge uses. */
  predicate Less(a: GrainOfSand, b: GrainOfSand) {
    a.key < b.key
  }

  ghost predicate Sorted(s: seq<GrainOfSand>) {
    forall i, j :: 0 <= i < j < |s| ==> !Less(s[j], s[i])
  }

  /** The grains of `s` whose key is `k`, in their order in `s`. */
  function Filter(s: seq<GrainOfSand>, k: int): seq<GrainOfSand> {
    if s == [] then [] else (if s[0].key == k then [s[0]] else []) + Filter(s[1..], k)
  }

  /** `r` keeps, for every key, the grains of `s` with that key in their original order. */
  ghost predicate Stable(s: seq<GrainOfSand>, r: seq<GrainOfSand>) {
    forall k :: Filter(r, k) == Filter(s, k)
  }

  /** The two-pointer merge of `Adventure::merge`: a grain of the right run is
      taken only when it is strictly less than the current grain of the left run. */
  function Merge(l: seq<GrainOfSand>, r: seq<GrainOfSand>): (out: seq<GrainOfSand>)
    ensures |out| == |l| + |r|
    decreases |l| + |r|
  {
    if l == [] then r
    else if r == [] then l
    else if Less(r[0], l[0]) then [r[0]] + Merge(l, r[1..])
    else [l[0]] + Merge(l[1..], r)
  }

  /** A merge is a permutation of its two runs together. */
  lemma {:induction false} MergePermutes(l: seq<GrainOfSand>, r: seq<GrainOfSand>)
    ensures multiset(Merge(l, r)) == multiset(l) + multiset(r)
    decreases |l| + |r|
  {
    if l != [] && r != [] {
      if Less(r[0], l[0]) {
        var rest := Merge(l, r[1..]);
        MergePermutes(l, r[1..]);
        assert Merge(l, r) == [r[0]] + rest;
        MultisetCons(r[0], rest, Merge(l, r));
        MultisetCons(r[0], r[1..], r);
        MultisetShift(multiset(Merge(l, r)), r[0], multiset(rest), multiset(l), multiset(r[1..]), multiset(r));
      } else {
        var rest := Merge(l[1..], r);
        MergePermutes(l[1..], r);
        assert Merge(l, r) == [l[0]] + rest;
        MultisetCons(l[0], rest, Merge(l, r));
        MultisetCons(l[0], l[1..], l);
        MultisetShiftLeft(multiset(Merge(l, r)), l[0], multiset(rest), multiset(l[1..]), multiset(r), multiset(l));
      }
    }
  }

  /** `{x} + (a + b1)` regrouped as `a + ({x} + b1)`. */
  lemma MultisetShift(whole: multiset<GrainOfSand>, x: GrainOfSand, rest: multiset<GrainOfSand>, a: multiset<GrainOfSand>, b1: multiset<GrainOfSand>, b: multiset<GrainOfSand>)
    requires whole == multiset{x} + rest && rest == a + b1 && b == multiset{x} + b1
    ensures whole == a + b
  {
  }

  /** `{x} + (b1 + a)` regrouped as `({x} + b1) + a`. */
  lemma MultisetShiftLeft(whole: multiset<GrainOfSand>, x: GrainOfSand, rest: multiset<GrainOfSand>, b1: multiset<GrainOfSand>, a: multiset<GrainOfSand>, b: multiset<GrainOfSand>)
    requires whole == multiset{x} + rest && rest == b1 + a && b == multiset{x} + b1
    ensures whole == b + a
  {
  }

  lemma MultisetCons(x: GrainOfSand, rest: seq<GrainOfSand>, whole: seq<GrainOfSand>)
    requires whole == [x] + rest
    ensures multiset(whole) == multiset{x} + multiset(rest)
  {
  }

  lemma SortedCons(a: GrainOfSand, rest: seq<GrainOfSand>)
    requires Sorted(rest)
    requires forall x :: x in rest ==> !Less(x, a)
    ensures Sorted([a] + rest)
  {
    forall i, j | 0 <= i < j < |[a] + rest| ensures !Less(([a] + rest)[j], ([a] + rest)[i]) {
      if i > 0 {
        assert ([a] + rest)[i] == rest[i - 1] && ([a] + rest)[j] == rest[j - 1];
      } else {
        assert ([a] + rest)[j] == rest[j - 1];
      }
    }
  }

  lemma {:induction false} MergeSorted(l: seq<GrainOfSand>, r: seq<GrainOfSand>)
    requires Sorted(l) && Sorted(r)
    ensures Sorted(Merge(l, r))
    decreases |l| + |r|
  {
    if l == [] || r == [] {
    } else if Less(r[0], l[0]) {
      var rest := Merge(l, r[1..]);
      MergeSorted(l, r[1..]);
      MergePermutes(l, r[1..]);
      forall x | x in rest ensures !Less(x, r[0]) {
        assert x in multiset(rest);
        if x in l {
          var i :| 0 <= i < |l| && l[i] == x;
          assert i == 0 || !Less(l[i], l[0]);
        } else {
          assert x in r[1..];
          var i :| 0 <= i < |r[1..]| && r[1..][i] == x;
          assert r[1..][i] == r[i + 1];
        }
      }
      SortedCons(r[0], rest);
    } else {
      var rest := Merge(l[1..], r);
      MergeSorted(l[1..], r);
      MergePermutes(l[1..], r);
      forall x | x in rest ensures !Less(x, l[0]) {
        assert x in multiset(rest);
        if x in r {
          var i :| 0 <= i < |r| && r[i] == x;
          assert i == 0 || !Less(r[i], r[0]);
        } else {
          assert x in l[1..];
          var i :| 0 <= i < |l[1..]| && l[1..][i] == x;
          assert l[1..][i] == l[i + 1];
        }
      }
      SortedCons(l[0], rest);
    }
  }

  lemma {:induction false} FilterConcat(x: seq<GrainOfSand>, y: seq<GrainOfSand>, k: int)
    ensures Filter(x + y, k) == Filter(x, k) + Filter(y, k)
    decreases |x|
  {
    if x != [] {
      assert (x + y)[1..] == x[1..] + y;
      FilterConcat(x[1..], y, k);
    } else {
      assert x + y == y;
    }
  }

  lemma {:induction false} FilterAbsent(s: seq<GrainOfSand>, k: int)
    requires forall i :: 0 <= i < |s| ==> s[i].key != k
    ensures Filter(s, k) == []
    decreases |s|
  {
    if s != [] {
      FilterAbsent(s[1..], k);
    }
  }

  /** Merging keeps, key by key, the left run's grains before the right run's:
      the merge is stable whenever the left run is sorted. */
  lemma {:induction false} MergeStable(l: seq<GrainOfSand>, r: seq<GrainOfSand>, k: int)
    requires Sorted(l)
    ensures Filter(Merge(l, r), k) == Filter(l, k) + Filter(r, k)
    decreases |l| + |r|
  {
    if l == [] {
      assert Filter(l, k) == [];
    } else if r == [] {
      assert Filter(r, k) == [];
    } else if Less(r[0], l[0]) {
      MergeStable(l, r[1..], k);
      MergeStableRight(l, r, k);
    } else {
      MergeStable(l[1..], r, k);
      MergeStableLeft(l, r, k);
    }
  }

  /** The grains of `[x] + rest` with key `k`. */
  lemma FilterCons(x: GrainOfSand, rest: seq<GrainOfSand>, k: int)
    ensures Filter([x] + rest, k) == (if x.key == k then [x] else []) + Filter(rest, k)
  {
    assert ([x] + rest)[1..] == rest;
  }

  lemma Assoc(x: seq<GrainOfSand>, y: seq<GrainOfSand>, z: seq<GrainOfSand>)
    ensures x + (y + z) == (x + y) + z
  {
  }

  lemma FilterHead(s: seq<GrainOfSand>, k: int)
    requires s != []
    ensures Filter(s, k) == (if s[0].key == k then [s[0]] else []) + Filter(s[1..], k)
  {
  }

  /** The step of `MergeStable` that takes the head of the right run. */
  lemma MergeStableRight(l: seq<GrainOfSand>, r: seq<GrainOfSand>, k: int)
    requires Sorted(l) && l != [] && r != [] && Less(r[0], l[0])
    requires Filter(Merge(l, r[1..]), k) == Filter(l, k) + Filter(r[1..], k)
    ensures Filter(Merge(l, r), k) == Filter(l, k) + Filter(r, k)
  {
    var rest := Merge(l, r[1..]);
    var head: seq<GrainOfSand> := if r[0].key == k then [r[0]] else [];
    assert Merge(l, r) == [r[0]] + rest;
    FilterCons(r[0], rest, k);
    FilterHead(r, k);
    if r[0].key == k {
      NoneBelowHead(l, r[0]);
    }
    Interleave(Filter(Merge(l, r), k), head, Filter(rest, k), Filter(l, k), Filter(r[1..], k), Filter(r, k));
  }

  /** A sorted run whose head is greater than `x` has no grain with the key of `x`. */
  lemma NoneBelowHead(l: seq<GrainOfSand>, x: GrainOfSand)
    requires Sorted(l) && l != [] && Less(x, l[0])
    ensures Filter(l, x.key) == []
  {
    forall i | 0 <= i < |l| ensures l[i].key != x.key {
      assert i == 0 || !Less(l[i], l[0]);
    }
    FilterAbsent(l, x.key);
  }

  /** Moving a head that is empty, or that comes before an empty left part. */
  lemma Interleave(fm: seq<GrainOfSand>, h: seq<GrainOfSand>, frest: seq<GrainOfSand>, fl: seq<GrainOfSand>, fr1: seq<GrainOfSand>, fr: seq<GrainOfSand>)
    requires fm == h + frest && frest == fl + fr1 && fr == h + fr1
    requires h == [] || fl == []
    ensures fm == fl + fr
  {
    if h == [] {
      assert fm == frest && fr == fr1;
    } else {
      assert fl + fr == fr;
    }
  }

  /** The step of `MergeStable` that takes the head of the left run. */
  lemma MergeStableLeft(l: seq<GrainOfSand>, r: seq<GrainOfSand>, k: int)
    requires l != [] && r != [] && !Less(r[0], l[0])
    requires Filter(Merge(l[1..], r), k) == Filter(l[1..], k) + Filter(r, k)
    ensures Filter(Merge(l, r), k) == Filter(l, k) + Filter(r, k)
  {
    var rest := Merge(l[1..], r);
    var head: seq<GrainOfSand> := if l[0].key == k then [l[0]] else [];
    assert Merge(l, r) == [l[0]] + rest;
    FilterCons(l[0], rest, k);
    FilterHead(l, k);
    Assoc(head, Filter(l[1..], k), Filter(r, k));
  }

  /** The merge of two sorted runs is sorted, a permutation of the two runs,
      and keeps the left run's grains of each key before the right run's. */
  lemma MergeOfSortedRuns(l: seq<GrainOfSand>, r: seq<GrainOfSand>)
    requires Sorted(l) && Sorted(r)
    ensures Sorted(Merge(l, r))
    ensures multiset(Merge(l, r)) == multiset(l + r)
    ensures forall k :: Filter(Merge(l, r), k) == Filter(l, k) + Filter(r, k)
  {
    MergeSorted(l, r);
    MergePermutes(l, r);
    forall k ensures Filter(Merge(l, r), k) == Filter(l, k) + Filter(r, k) {
      MergeStable(l, r, k);
    }
  }

  /** `s` is a run of sorted blocks of length `b` (the last one may be shorter). */
  ghost predicate BlocksSorted(s: seq<GrainOfSand>, b: nat)
    requires b >= 1
    decreases |s|
  {
    if |s| <= b then Sorted(s) else Sorted(s[..b]) && BlocksSorted(s[b..], b)
  }

  lemma {:induction false} BlocksOfOne(s: seq<GrainOfSand>)
    ensures BlocksSorted(s, 1)
    decreases |s|
  {
    if |s| > 1 {
      BlocksOfOne(s[1..]);
    }
  }

  /** One pass with block size `size`, by position in the sequence: each full
      block is the merge of its two halves; a partial tail block whose left half
      is complete is merged with what remains; anything shorter is left as is. */
  function Pass(s: seq<GrainOfSand>, size: nat): (r: seq<GrainOfSand>)
    requires size >= 2
    ensures |r| == |s|
    decreases |s|
  {
    var h := (size - 1) / 2 + 1;
    if |s| >= size then Merge(s[..h], s[h..size]) + Pass(s[size..], size)
    else if h <= |s| then Merge(s[..h], s[h..])
    else s
  }

  /** A pass is a permutation. */
  lemma {:induction false} PassPermutes(s: seq<GrainOfSand>, size: nat)
    requires size >= 2
    ensures multiset(Pass(s, size)) == multiset(s)
    decreases |s|
  {
    if |s| >= size {
      PassPermutes(s[size..], size);
      FullBlockPermutes(s, size);
    } else {
      TailBlockPermutes(s, size);
    }
  }

  lemma FullBlockPermutes(s: seq<GrainOfSand>, size: nat)
    requires 2 <= size <= |s|
    requires multiset(Pass(s[size..], size)) == multiset(s[size..])
    ensures multiset(Pass(s, size)) == multiset(s)
  {
    var h := (size - 1) / 2 + 1;
    PassUnfold(s, size, h);
    MergePermutes(s[..h], s[h..size]);
    MultisetOfParts(s, h, size, Merge(s[..h], s[h..size]), Pass(s[size..], size));
  }

  lemma SplitAt3(s: seq<GrainOfSand>, i: nat, j: nat)
    requires i <= j <= |s|
    ensures s == s[..i] + s[i..j] + s[j..]
  {
  }

  lemma SliceJoin(s: seq<GrainOfSand>, i: nat, j: nat, k: nat)
    requires i <= j <= k <= |s|
    ensures s[i..k] == s[i..j] + s[j..k]
  {
  }

  lemma MultisetOfParts(s: seq<GrainOfSand>, h: nat, size: nat, m: seq<GrainOfSand>, p: seq<GrainOfSand>)
    requires h <= size <= |s|
    requires multiset(m) == multiset(s[..h]) + multiset(s[h..size])
    requires multiset(p) == multiset(s[size..])
    ensures multiset(m + p) == multiset(s)
  {
    SplitAt3(s, h, size);
  }

  lemma TailBlockPermutes(s: seq<GrainOfSand>, size: nat)
    requires 2 <= size && |s| < size
    ensures multiset(Pass(s, size)) == multiset(s)
  {
    var h := (size - 1) / 2 + 1;
    if h <= |s| {
      MergePermutes(s[..h], s[h..]);
      assert s == s[..h] + s[h..];
    }
  }

  /** Two sorted blocks at the front of a run of sorted blocks. */
  lemma TwoBlocks(s: seq<GrainOfSand>, h: nat)
    requires h >= 1 && |s| >= 2 * h
    requires BlocksSorted(s, h)
    ensures Sorted(s[..h]) && Sorted(s[h..2 * h]) && BlocksSorted(s[2 * h..], h)
  {
    var t := s[h..];
    assert BlocksSorted(t, h);
    if |t| <= h {
      assert t == s[h..2 * h] && s[2 * h..] == [];
    } else {
      assert t[..h] == s[h..2 * h] && t[h..] == s[2 * h..];
    }
  }

  lemma ConsBlock(x: seq<GrainOfSand>, y: seq<GrainOfSand>, b: nat)
    requires b >= 1 && |x| == b && Sorted(x) && BlocksSorted(y, b)
    ensures BlocksSorted(x + y, b)
  {
    if y != [] {
      assert (x + y)[..b] == x && (x + y)[b..] == y;
    } else {
      assert x + y == x;
    }
  }

  /** A pass with block size `size` turns sorted blocks of `size / 2` into sorted blocks of `size`. */
  lemma {:induction false} PassSorted(s: seq<GrainOfSand>, size: nat)
    requires size >= 2 && size % 2 == 0
    requires BlocksSorted(s, size / 2)
    ensures BlocksSorted(Pass(s, size), size)
    decreases |s|
  {
    if |s| >= size {
      assert BlocksSorted(s[size..], size / 2) by {
        HalfOfEven(size);
        TwoBlocks(s, size / 2);
      }
      PassSorted(s[size..], size);
      FullBlockSorted(s, size);
    } else {
      TailBlockSorted(s, size);
    }
  }

  /** The two runs of a partial block, each sorted. */
  lemma TailRunsSorted(s: seq<GrainOfSand>, h: nat)
    requires 1 <= h <= |s| < 2 * h && BlocksSorted(s, h)
    ensures Sorted(s[..h]) && Sorted(s[h..])
  {
    if |s| == h {
      assert s[..h] == s && s[h..] == [];
    } else {
      assert BlocksSorted(s[h..], h);
    }
  }

  lemma TailBlockSorted(s: seq<GrainOfSand>, size: nat)
    requires size >= 2 && size % 2 == 0 && |s| < size
    requires BlocksSorted(s, size / 2)
    ensures BlocksSorted(Pass(s, size), size)
  {
    var h := size / 2;
    HalfOfEven(size);
    if h <= |s| {
      TailRunsSorted(s, h);
      TailPass(s, size, h);
      MergeSorted(s[..h], s[h..]);
    }
  }

  lemma FullBlockSorted(s: seq<GrainOfSand>, size: nat)
    requires size >= 2 && size % 2 == 0 && |s| >= size
    requires BlocksSorted(s, size / 2)
    requires BlocksSorted(Pass(s[size..], size), size)
    ensures BlocksSorted(Pass(s, size), size)
  {
    var h := size / 2;
    HalfOfEven(size);
    TwoBlocks(s, h);
    MergeSorted(s[..h], s[h..size]);
    ConsPass(s, size, h);
  }

  lemma HalfOfEven(size: nat)
    requires size >= 2 && size % 2 == 0
    ensures size / 2 == (size - 1) / 2 + 1 && 2 * (size / 2) == size
  {
  }

  lemma ConsPass(s: seq<GrainOfSand>, size: nat, h: nat)
    requires size >= 2 && |s| >= size && h == (size - 1) / 2 + 1
    requires Sorted(Merge(s[..h], s[h..size]))
    requires BlocksSorted(Pass(s[size..], size), size)
    ensures BlocksSorted(Pass(s, size), size)
  {
    PassUnfold(s, size, h);
    ConsBlock(Merge(s[..h], s[h..size]), Pass(s[size..], size), size);
  }

  /** Filtering one merged block followed by a rest that filters like `c`. */
  lemma MergeThenRest(a: seq<GrainOfSand>, b: seq<GrainOfSand>, c: seq<GrainOfSand>, rest: seq<GrainOfSand>, k: int)
    requires Sorted(a) && Filter(rest, k) == Filter(c, k)
    ensures Filter(Merge(a, b) + rest, k) == Filter(a + b + c, k)
  {
    FilterConcat(Merge(a, b), rest, k);
    MergeStable(a, b, k);
    FilterConcat(a, b, k);
    FilterConcat(a + b, c, k);
  }

  /** A pass over sorted blocks of `size / 2` keeps every key's grains in order. */
  lemma {:induction false} PassStable(s: seq<GrainOfSand>, size: nat, k: int)
    requires size >= 2 && size % 2 == 0
    requires BlocksSorted(s, size / 2)
    ensures Filter(Pass(s, size), k) == Filter(s, k)
    decreases |s|
  {
    if |s| >= size {
      assert Sorted(s[..(size - 1) / 2 + 1]) && BlocksSorted(s[size..], size / 2) by {
        HalfOfEven(size);
        TwoBlocks(s, size / 2);
      }
      PassStable(s[size..], size, k);
      PassStableFull(s, size, k);
    } else {
      TailBlockStable(s, size, k);
    }
  }

  lemma TailBlockStable(s: seq<GrainOfSand>, size: nat, k: int)
    requires size >= 2 && size % 2 == 0 && |s| < size
    requires BlocksSorted(s, size / 2)
    ensures Filter(Pass(s, size), k) == Filter(s, k)
  {
    var h := size / 2;
    HalfOfEven(size);
    if h <= |s| {
      TailRunsSorted(s, h);
      TailPass(s, size, h);
      MergeStable(s[..h], s[h..], k);
      FilterConcat(s[..h], s[h..], k);
      assert s == s[..h] + s[h..];
    }
  }

  lemma PassStableFull(s: seq<GrainOfSand>, size: nat, k: int)
    requires size >= 2 && |s| >= size
    requires Sorted(s[..(size - 1) / 2 + 1])
    requires Filter(Pass(s[size..], size), k) == Filter(s[size..], k)
    ensures Filter(Pass(s, size), k) == Filter(s, k)
  {
    var h := (size - 1) / 2 + 1;
    var a, b, c := s[..h], s[h..size], s[size..];
    PassUnfold(s, size, h);
    MergeThenRest(a, b, c, Pass(c, size), k);
    SplitAt3(s, h, size);
  }

  /** One merge call `merge(grains, left, mid, right)`: the runs are
      `[left, mid]` and `[mid + 1, right]`, both ends included. */
  datatype MergeTask = MergeTask(left: nat, mid: nat, right: nat)

  predicate ValidTask(t: MergeTask, n: nat) {
    t.left <= t.mid <= t.right < n
  }

  /** The merges of one pass with block size `size` from position `left` on,
      in the order the source issues (or enqueues) them. */
  function PassTasks(n: nat, size: nat, left: nat): (ts: seq<MergeTask>)
    requires size >= 2
    decreases n - left
  {
    if left + size - 1 < n then
      [MergeTask(left, left + (size - 1) / 2, left + size - 1)] + PassTasks(n, size, left + size)
    else if left + (size - 1) / 2 < n then
      [MergeTask(left, left + (size - 1) / 2, n - 1)]
    else []
  }

  /** Every merge of a pass lies inside the sequence, at or after `left`. */
  lemma {:induction false} PassTasksValid(n: nat, size: nat, left: nat)
    requires size >= 2
    ensures forall i :: 0 <= i < |PassTasks(n, size, left)| ==>
      ValidTask(PassTasks(n, size, left)[i], n) && left <= PassTasks(n, size, left)[i].left
    decreases n - left
  {
    if left + size - 1 < n {
      PassTasksValid(n, size, left + size);
      var t := MergeTask(left, left + (size - 1) / 2, left + size - 1);
      assert PassTasks(n, size, left) == [t] + PassTasks(n, size, left + size);
    }
  }

  /** The merges of one pass touch pairwise disjoint index ranges, in increasing order. */
  lemma {:induction false} PassTasksDisjoint(n: nat, size: nat, left: nat)
    requires size >= 2
    ensures forall i, j :: 0 <= i < j < |PassTasks(n, size, left)| ==>
      PassTasks(n, size, left)[i].right < PassTasks(n, size, left)[j].left
    decreases n - left
  {
    var ts := PassTasks(n, size, left);
    if left + size - 1 < n {
      var t := MergeTask(left, left + (size - 1) / 2, left + size - 1);
      var rest := PassTasks(n, size, left + size);
      assert ts == [t] + rest;
      PassTasksDisjoint(n, size, left + size);
      PassTasksValid(n, size, left + size);
      forall i, j | 0 <= i < j < |ts| ensures ts[i].right < ts[j].left {
        assert ts[j] == rest[j - 1];
        assert left + size <= rest[j - 1].left;
        if i > 0 {
          assert ts[i] == rest[i - 1];
          assert 0 <= i - 1 < j - 1 < |rest|;
          assert rest[i - 1].right < rest[j - 1].left;
        } else {
          assert ts[i] == t;
        }
      }
    }
  }

  /** The merged segment one merge call writes back. */
  function MergedRuns(s: seq<GrainOfSand>, t: MergeTask): (m: seq<GrainOfSand>)
    requires ValidTask(t, |s|)
    ensures |m| == t.right + 1 - t.left
  {
    Merge(s[t.left..t.mid + 1], s[t.mid + 1..t.right + 1])
  }

  /** The effect of one merge call on the whole sequence. */
  function MergeAt(s: seq<GrainOfSand>, t: MergeTask): (r: seq<GrainOfSand>)
    requires ValidTask(t, |s|)
    ensures |r| == |s|
  {
    s[..t.left] + MergedRuns(s, t) + s[t.right + 1..]
  }

  /** Running merge tasks one after the other, in queue order. A task that does
      not fit the sequence, which no pass submits, is passed over. */
  function RunTasks(s: seq<GrainOfSand>, ts: seq<MergeTask>): (r: seq<GrainOfSand>)
    ensures |r| == |s|
    decreases |ts|
  {
    if ts == [] then s
    else if ValidTask(ts[0], |s|) then RunTasks(MergeAt(s, ts[0]), ts[1..])
    else RunTasks(s, ts[1..])
  }

  lemma {:induction false} SliceEqual(x: seq<GrainOfSand>, y: seq<GrainOfSand>, lo: nat, hi: nat)
    requires lo <= hi <= |x| == |y|
    requires forall i :: lo <= i < hi ==> x[i] == y[i]
    ensures x[lo..hi] == y[lo..hi]
  {
  }

  /** A merge call rewrites exactly the cells of its segment. */
  lemma {:induction false} MergeAtAt(s: seq<GrainOfSand>, t: MergeTask, i: nat)
    requires ValidTask(t, |s|) && i < |s|
    ensures MergeAt(s, t)[i] == if i < t.left || t.right < i then s[i] else MergedRuns(s, t)[i - t.left]
  {
  }

  lemma {:induction false} MergeAtKeepsOutside(s: seq<GrainOfSand>, t: MergeTask, lo: nat, hi: nat)
    requires ValidTask(t, |s|) && lo <= hi <= |s|
    requires hi <= t.left || t.right < lo
    ensures MergeAt(s, t)[lo..hi] == s[lo..hi]
  {
    forall i | lo <= i < hi ensures MergeAt(s, t)[i] == s[i] {
      MergeAtAt(s, t, i);
    }
    SliceEqual(MergeAt(s, t), s, lo, hi);
  }

  /** What a merge call writes depends only on the two runs it is given. */
  lemma {:induction false} MergedRunsLocal(s: seq<GrainOfSand>, s': seq<GrainOfSand>, t: MergeTask)
    requires ValidTask(t, |s|) && |s'| == |s|
    requires s[t.left..t.mid + 1] == s'[t.left..t.mid + 1]
    requires s[t.mid + 1..t.right + 1] == s'[t.mid + 1..t.right + 1]
    ensures MergedRuns(s, t) == MergedRuns(s', t)
  {
  }

  /** A merge does not change what a merge over a disjoint range writes. */
  lemma MergeKeepsOtherRuns(s: seq<GrainOfSand>, t: MergeTask, other: MergeTask)
    requires ValidTask(t, |s|) && ValidTask(other, |s|)
    requires t.right < other.left || other.right < t.left
    ensures MergedRuns(MergeAt(s, t), other) == MergedRuns(s, other)
  {
    MergeAtKeepsOutside(s, t, other.left, other.mid + 1);
    MergeAtKeepsOutside(s, t, other.mid + 1, other.right + 1);
    MergedRunsLocal(MergeAt(s, t), s, other);
  }

  /** Two merges over disjoint ranges commute, so the tasks of one pass may run in any order. */
  lemma {:induction false} MergesCommute(s: seq<GrainOfSand>, t1: MergeTask, t2: MergeTask)
    requires ValidTask(t1, |s|) && ValidTask(t2, |s|)
    requires t1.right < t2.left
    ensures MergeAt(MergeAt(s, t1), t2) == MergeAt(MergeAt(s, t2), t1)
  {
    var s1, s2 := MergeAt(s, t1), MergeAt(s, t2);
    MergeKeepsOtherRuns(s, t1, t2);
    MergeKeepsOtherRuns(s, t2, t1);
    var u, v := MergeAt(s1, t2), MergeAt(s2, t1);
    forall i | 0 <= i < |s| ensures u[i] == v[i] {
      MergeAtAt(s1, t2, i);
      MergeAtAt(s, t1, i);
      MergeAtAt(s2, t1, i);
      MergeAtAt(s, t2, i);
    }
  }

  /** Running `a` then `b` is running them one after the other. */
  lemma {:induction false} RunTasksAppend(s: seq<GrainOfSand>, a: seq<MergeTask>, b: seq<MergeTask>)
    ensures RunTasks(s, a + b) == RunTasks(RunTasks(s, a), b)
    decreases |a|
  {
    if a == [] {
      assert a + b == b;
    } else {
      assert (a + b)[0] == a[0] && (a + b)[1..] == a[1..] + b;
      if ValidTask(a[0], |s|) {
        RunTasksAppend(MergeAt(s, a[0]), a[1..], b);
      } else {
        RunTasksAppend(s, a[1..], b);
      }
    }
  }

  /** Two adjacent tasks of a queue whose ranges are disjoint can trade places
      without changing the result; by repeated swaps, the merges of one pass
      (pairwise disjoint, `PassTasksDisjoint`) give the same array in any order. */
  lemma SwapAdjacent(s: seq<GrainOfSand>, pre: seq<MergeTask>, t1: MergeTask, t2: MergeTask, post: seq<MergeTask>)
    requires ValidTask(t1, |s|) && ValidTask(t2, |s|)
    requires t1.right < t2.left || t2.right < t1.left
    ensures RunTasks(s, pre + [t1, t2] + post) == RunTasks(s, pre + [t2, t1] + post)
  {
    var x := RunTasks(s, pre);
    assert pre + [t1, t2] + post == pre + ([t1] + ([t2] + post));
    assert pre + [t2, t1] + post == pre + ([t2] + ([t1] + post));
    RunTasksAppend(s, pre, [t1] + ([t2] + post));
    RunTasksAppend(s, pre, [t2] + ([t1] + post));
    RunTasksCons(x, t1, [t2] + post);
    RunTasksCons(MergeAt(x, t1), t2, post);
    RunTasksCons(x, t2, [t1] + post);
    RunTasksCons(MergeAt(x, t2), t1, post);
    if t1.right < t2.left {
      MergesCommute(x, t1, t2);
    } else {
      MergesCommute(x, t2, t1);
    }
  }

  lemma {:induction false} PassUnfold(x: seq<GrainOfSand>, size: nat, h: nat)
    requires size >= 2 && size <= |x| && h == (size - 1) / 2 + 1
    ensures Pass(x, size) == Merge(x[..h], x[h..size]) + Pass(x[size..], size)
  {
  }

  lemma Concat3(a: seq<GrainOfSand>, m: seq<GrainOfSand>, b: seq<GrainOfSand>)
    ensures (a + m + b)[..|a| + |m|] == a + m
    ensures (a + m + b)[|a| + |m|..] == b
  {
  }

  lemma RunTasksCons(s: seq<GrainOfSand>, t: MergeTask, rest: seq<MergeTask>)
    requires ValidTask(t, |s|)
    ensures RunTasks(s, [t] + rest) == RunTasks(MergeAt(s, t), rest)
  {
    assert ([t] + rest)[1..] == rest;
  }

  /** A merge call leaves the prefix before and the suffix after its segment alone. */
  lemma {:induction false} MergeAtParts(s: seq<GrainOfSand>, t: MergeTask)
    requires ValidTask(t, |s|)
    ensures MergeAt(s, t)[..t.right + 1] == s[..t.left] + MergedRuns(s, t)
    ensures MergeAt(s, t)[t.right + 1..] == s[t.right + 1..]
  {
    Concat3(s[..t.left], MergedRuns(s, t), s[t.right + 1..]);
  }

  /** One merge call, seen from the suffix where its segment starts: the
      runs are the first `h` grains of the suffix and the next ones up to `len`. */
  lemma MergeAtSuffix(s: seq<GrainOfSand>, c: nat, h: nat, len: nat, t: MergeTask)
    requires 1 <= h <= len && c + len <= |s| && t == MergeTask(c, c + h - 1, c + len - 1)
    ensures ValidTask(t, |s|)
    ensures MergeAt(s, t) == s[..c] + Merge(s[c..][..h], s[c..][h..len]) + s[c + len..]
    ensures |s[..c]| + |Merge(s[c..][..h], s[c..][h..len])| == c + len
  {
    assert s[c..][..h] == s[c..c + h] && s[c..][h..len] == s[c + h..c + len];
  }

  lemma {:induction false} TailTaskStep(s: seq<GrainOfSand>, size: nat, c: nat)
    requires size >= 2 && c + (size - 1) / 2 < |s| <= c + size - 1
    ensures ValidTask(MergeTask(c, c + (size - 1) / 2, |s| - 1), |s|)
    ensures MergeAt(s, MergeTask(c, c + (size - 1) / 2, |s| - 1)) == s[..c] + Pass(s[c..], size)
  {
    var h := (size - 1) / 2 + 1;
    var t := MergeTask(c, c + (size - 1) / 2, |s| - 1);
    MergeAtSuffix(s, c, h, |s| - c, t);
    TailPass(s[c..], size, h);
    assert s[|s|..] == [] && s[c..][h..|s| - c] == s[c..][h..];
  }

  /** A pass over less than one full block merges the first `h` grains with the rest. */
  lemma TailPass(x: seq<GrainOfSand>, size: nat, h: nat)
    requires size >= 2 && h == (size - 1) / 2 + 1 && h <= |x| < size
    ensures Pass(x, size) == Merge(x[..h], x[h..])
  {
  }

  lemma {:induction false} PassTasksUnfold(n: nat, size: nat, c: nat)
    requires size >= 2 && c + size - 1 < n
    ensures PassTasks(n, size, c) == [MergeTask(c, c + (size - 1) / 2, c + size - 1)] + PassTasks(n, size, c + size)
  {
  }

  /** Running the first merge of a pass from `left` and then the rest of the
      pass is running the pass from `left`. */
  lemma BlockStep(s: seq<GrainOfSand>, after: seq<GrainOfSand>, size: nat, left: nat, next: nat)
    requires size >= 2 && left + size - 1 < |s| && next == left + size
    requires after == MergeAt(s, MergeTask(left, left + (size - 1) / 2, left + size - 1))
    ensures RunTasks(after, PassTasks(|s|, size, next)) == RunTasks(s, PassTasks(|s|, size, left))
  {
    var t := MergeTask(left, left + (size - 1) / 2, left + size - 1);
    var rest := PassTasks(|s|, size, next);
    assert PassTasks(|s|, size, left) == [t] + rest;
    RunTasksCons(s, t, rest);
  }

  /** The step of `RunPassTasks` over a full block, given the claim for the blocks after it. */
  lemma {:induction false} FullCase(s: seq<GrainOfSand>, size: nat, c: nat)
    requires size >= 2 && c + size <= |s|
    ensures RunTasks(s, PassTasks(|s|, size, c)) == s[..c] + Pass(s[c..], size)
    decreases |s| - c, 0
  {
    var t := MergeTask(c, c + (size - 1) / 2, c + size - 1);
    var s', rest := MergeAt(s, t), PassTasks(|s|, size, c + size);
    calc {
      RunTasks(s, PassTasks(|s|, size, c));
      == { PassTasksUnfold(|s|, size, c); }
      RunTasks(s, [t] + rest);
      == { RunTasksCons(s, t, rest); }
      RunTasks(s', rest);
      == { RunPassTasks(s', size, c + size); }
      s'[..c + size] + Pass(s'[c + size..], size);
      == { FullBlockRest(s, size, c); }
      s[..c] + Pass(s[c..], size);
    }
  }

  lemma {:induction false} FullBlockRest(s: seq<GrainOfSand>, size: nat, c: nat)
    requires size >= 2 && c + size <= |s|
    ensures var s' := MergeAt(s, MergeTask(c, c + (size - 1) / 2, c + size - 1));
      s'[..c + size] + Pass(s'[c + size..], size) == s[..c] + Pass(s[c..], size)
  {
    var h := (size - 1) / 2 + 1;
    var t := MergeTask(c, c + (size - 1) / 2, c + size - 1);
    MergeAtSuffix(s, c, h, size, t);
    PassOfSuffix(s, size, c, h);
    Recombine(MergeAt(s, t), s[..c], Merge(s[c..][..h], s[c..][h..size]), s[c + size..], c + size, Pass(s[c + size..], size), Pass(s[c..], size));
  }

  /** The pass from `c` on: the merge of the first block, then the pass after it. */
  lemma PassOfSuffix(s: seq<GrainOfSand>, size: nat, c: nat, h: nat)
    requires size >= 2 && c + size <= |s| && h == (size - 1) / 2 + 1
    ensures Pass(s[c..], size) == Merge(s[c..][..h], s[c..][h..size]) + Pass(s[c + size..], size)
  {
    PassUnfold(s[c..], size, h);
    assert s[c..][size..] == s[c + size..];
  }

  /** Cutting `pre + m + post` after `m`, and regrouping what follows the cut. */
  lemma Recombine(s': seq<GrainOfSand>, pre: seq<GrainOfSand>, m: seq<GrainOfSand>, post: seq<GrainOfSand>, i: nat, p: seq<GrainOfSand>, q: seq<GrainOfSand>)
    requires s' == pre + m + post && i == |pre| + |m| && q == m + p
    ensures s'[i..] == post
    ensures s'[..i] + p == pre + q
  {
    assert s'[..i] == pre + m && s'[i..] == post;
  }

  /** The step of `RunPassTasks` once no full block is left. */
  lemma {:induction false} LastCase(s: seq<GrainOfSand>, size: nat, c: nat)
    requires size >= 2 && c <= |s| <= c + size - 1
    ensures RunTasks(s, PassTasks(|s|, size, c)) == s[..c] + Pass(s[c..], size)
  {
    var n := |s|;
    if c + (size - 1) / 2 < n {
      var t := MergeTask(c, c + (size - 1) / 2, n - 1);
      assert PassTasks(n, size, c) == [t];
      TailTaskStep(s, size, c);
      RunTasksCons(s, t, []);
    } else {
      assert s == s[..c] + s[c..];
    }
  }

  /** Running the merges of a pass from position `c` leaves `s[..c]` alone and
      performs the position-free `Pass` on the rest. */
  lemma {:induction false} RunPassTasks(s: seq<GrainOfSand>, size: nat, c: nat)
    requires size >= 2 && c <= |s|
    ensures RunTasks(s, PassTasks(|s|, size, c)) == s[..c] + Pass(s[c..], size)
    decreases |s| - c, 1
  {
    var n := |s|;
    if c + size - 1 < n {
      var t := MergeTask(c, c + (size - 1) / 2, c + size - 1);
      FullCase(s, size, c);
    } else {
      LastCase(s, size, c);
    }
  }

  /** The passes of `arrangeSand` from block size `size` on: they run while the
      block size is at most twice the length, doubling it after each pass. */
  function SortPasses(s: seq<GrainOfSand>, size: nat): (r: seq<GrainOfSand>)
    requires size >= 2
    ensures |r| == |s|
    decreases 2 * |s| + 1 - size
  {
    if size <= 2 * |s| then SortPasses(RunTasks(s, PassTasks(|s|, size, 0)), 2 * size) else s
  }

  /** One more pass, while the block size is at most twice the length: what is
      left to do after it is the passes from the doubled block size on. */
  lemma SortPassesStep(s: seq<GrainOfSand>, after: seq<GrainOfSand>, size: nat)
    requires 2 <= size <= 2 * |s|
    requires after == RunTasks(s, PassTasks(|s|, size, 0))
    ensures SortPasses(s, size) == SortPasses(after, 2 * size)
  {
  }

  /** What `arrangeSand` leaves in the array, as a function of what was there. */
  function ArrangeSandSpec(s: seq<GrainOfSand>): (r: seq<GrainOfSand>)
    ensures |r| == |s|
  {
    SortPasses(s, 2)
  }

  lemma {:induction false} SortPassesCorrect(s: seq<GrainOfSand>, size: nat)
    requires size >= 2 && size % 2 == 0
    requires BlocksSorted(s, size / 2)
    ensures Sorted(SortPasses(s, size))
    ensures multiset(SortPasses(s, size)) == multiset(s)
    ensures Stable(s, SortPasses(s, size))
    decreases 2 * |s| + 1 - size
  {
    if size <= 2 * |s| {
      RunPassTasks(s, size, 0);
      assert s[..0] == [] && s[0..] == s;
      var p := Pass(s, size);
      assert RunTasks(s, PassTasks(|s|, size, 0)) == p;
      PassSorted(s, size);
      PassPermutes(s, size);
      assert (2 * size) / 2 == size;
      SortPassesCorrect(p, 2 * size);
      forall k ensures Filter(SortPasses(s, size), k) == Filter(s, k) {
        PassStable(s, size, k);
      }
    }
  }

  /** The bottom-up merge sort yields a sorted permutation of its input, and is stable. */
  lemma ArrangeSandIsStableSort(s: seq<GrainOfSand>)
    ensures Sorted(ArrangeSandSpec(s))
    ensures multiset(ArrangeSandSpec(s)) == multiset(s)
    ensures Stable(s, ArrangeSandSpec(s))
  {
    BlocksOfOne(s);
    SortPassesCorrect(s, 2);
  }

  lemma {:induction false} FilterOccurs(s: seq<GrainOfSand>, k: int)
    requires Filter(s, k) != []
    ensures exists i :: 0 <= i < |s| && s[i].key == k
    decreases |s|
  {
    if s[0].key != k {
      FilterOccurs(s[1..], k);
      var i :| 0 <= i < |s[1..]| && s[1..][i].key == k;
      assert s[i + 1] == s[1..][i];
    }
  }

  /** If `y` agrees with `x` key by key and is sorted, it starts no later than `x`'s first key. */
  lemma HeadBound(x: seq<GrainOfSand>, y: seq<GrainOfSand>)
    requires Sorted(y) && Stable(x, y)
    ensures x != [] ==> y != [] && !Less(x[0], y[0])
  {
    if x != [] {
      assert Filter(x, x[0].key) != [];
      assert Filter(y, x[0].key) != [];
      FilterOccurs(y, x[0].key);
      var i :| 0 <= i < |y| && y[i].key == x[0].key;
      assert i == 0 || !Less(y[i], y[0]);
    }
  }

  /** A stable sort has only one possible outcome: two sorted sequences that
      agree key by key are equal. */
  lemma {:induction false} StableSortUnique(x: seq<GrainOfSand>, y: seq<GrainOfSand>)
    requires Sorted(x) && Sorted(y) && Stable(x, y)
    ensures x == y
    decreases |x|
  {
    HeadBound(x, y);
    HeadBound(y, x);
    if x != [] {
      var k := x[0].key;
      assert Filter(x, k)[0] == x[0] && Filter(y, k)[0] == y[0];
      assert Filter(y, k) == Filter(x, k);
      forall k' ensures Filter(y[1..], k') == Filter(x[1..], k') {
        var p := if x[0].key == k' then [x[0]] else [];
        assert Filter(x, k') == p + Filter(x[1..], k');
        assert Filter(y, k') == p + Filter(y[1..], k');
        assert Filter(y, k') == Filter(x, k');
        assert (p + Filter(x[1..], k'))[|p|..] == Filter(x[1..], k');
        assert (p + Filter(y[1..], k'))[|p|..] == Filter(y[1..], k');
      }
      StableSortUnique(x[1..], y[1..]);
      assert x == [x[0]] + x[1..] && y == [y[0]] + y[1..];
    }
  }

  /** Sorting an already sorted sequence (in particular one of length 0 or 1) changes nothing. */
  lemma ArrangeSandIdempotent(s: seq<GrainOfSand>)
    requires Sorted(s)
    ensures ArrangeSandSpec(s) == s
  {
    ArrangeSandIsStableSort(s);
    forall k ensures Filter(s, k) == Filter(ArrangeSandSpec(s), k) { }
    StableSortUnique(ArrangeSandSpec(s), s);
  }

  /** On fewer than two grains the sort leaves the sequence as it is. */
  lemma ArrangeSandShort(s: seq<GrainOfSand>)
    requires |s| <= 1
    ensures ArrangeSandSpec(s) == s
  {
    ArrangeSandIdempotent(s);
  }
}
