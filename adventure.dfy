/**
 * The helpers the abstract `Adventure` base class gives both adventures:
 * `max` on egg weights and the in-place `merge` of two adjacent sorted runs of
 * a grain array.
 */
module Adventure {
  import opened Sand

  /** `max` on weights: the larger of the two, the second one on a tie. */
  function Max(a: nat, b: nat): (r: nat)
    ensures r >= a && r >= b
    ensures r == a || r == b
  {
    if a > b then a else b
  }

  /** One step of the two-pointer merge, stated on the unread suffixes. */
  lemma MergeStep(l: seq<GrainOfSand>, r: seq<GrainOfSand>, i: nat, j: nat)
    requires i < |l| && j < |r|
    ensures Less(r[j], l[i]) ==> Sand.Merge(l[i..], r[j..]) == [r[j]] + Sand.Merge(l[i..], r[j + 1..])
    ensures !Less(r[j], l[i]) ==> Sand.Merge(l[i..], r[j..]) == [l[i]] + Sand.Merge(l[i + 1..], r[j..])
  {
    assert l[i..][0] == l[i] && l[i..][1..] == l[i + 1..];
    assert r[j..][0] == r[j] && r[j..][1..] == r[j + 1..];
  }

  /** Writing the next output grain extends the merged prefix by one. */
  lemma Emit(done: seq<GrainOfSand>, x: GrainOfSand, rest: seq<GrainOfSand>, whole: seq<GrainOfSand>)
    requires done + ([x] + rest) == whole
    ensures (done + [x]) + rest == whole
  {
  }

  /**
   * `merge(grains, left, m, right)`: copies the runs `[left, m]` and
   * `(m, right]` into scratch sequences and merges them back into `[left, right]`,
   * taking from the right run only when its grain is strictly less.
   */
  method Merge(a: array<GrainOfSand>, left: nat, m: nat, right: nat)
    requires left <= m <= right < a.Length
    modifies a
    ensures a[..] == MergeAt(old(a[..]), MergeTask(left, m, right))
  {
    var L, R := a[left..m + 1], a[m + 1..right + 1];
    ghost var s0 := a[..];
    var i, j, k, out := MergeHeads(a, left, L, R);
    ghost var s1 := a[..];
    CopyBack(a, L, R, i, j, k);
    DrainGlue(s0, s1, a[..], MergeTask(left, m, right), L, R, out, k, L[i..] + R[j..]);
  }

  /** What one `merge` call promises: if both runs are sorted, the segment
      `[left, right]` ends up sorted and a permutation of what it held; for every
      key, the grains of the left run come before those of the right run (the
      tie rule); and no cell outside the segment changes. */
  lemma MergeCall(s: seq<GrainOfSand>, t: MergeTask)
    requires ValidTask(t, |s|)
    requires Sorted(s[t.left..t.mid + 1]) && Sorted(s[t.mid + 1..t.right + 1])
    ensures Sorted(MergeAt(s, t)[t.left..t.right + 1])
    ensures multiset(MergeAt(s, t)[t.left..t.right + 1]) == multiset(s[t.left..t.right + 1])
    ensures forall k {:trigger Filter(s[t.left..t.mid + 1], k)} ::
      Filter(MergeAt(s, t)[t.left..t.right + 1], k) == Filter(s[t.left..t.mid + 1], k) + Filter(s[t.mid + 1..t.right + 1], k)
    ensures MergeAt(s, t)[..t.left] == s[..t.left] && MergeAt(s, t)[t.right + 1..] == s[t.right + 1..]
  {
    var l, r := s[t.left..t.mid + 1], s[t.mid + 1..t.right + 1];
    assert MergeAt(s, t)[t.left..t.right + 1] == Sand.Merge(l, r)
      && MergeAt(s, t)[..t.left] == s[..t.left] && MergeAt(s, t)[t.right + 1..] == s[t.right + 1..] by {
      MergeAtParts(s, t);
      Concat3(s[..t.left], MergedRuns(s, t), s[t.right + 1..]);
    }
    assert s[t.left..t.right + 1] == l + r by {
      SliceJoin(s, t.left, t.mid + 1, t.right + 1);
    }
    MergeOfSortedRuns(l, r);
  }

  /** The main loop of `merge`: while both runs have grains left, the smaller
      head (the left one on a tie) goes to the next cell. */
  method MergeHeads(a: array<GrainOfSand>, left: nat, L: seq<GrainOfSand>, R: seq<GrainOfSand>)
    returns (i: nat, j: nat, k: nat, ghost out: seq<GrainOfSand>)
    requires left + |L| + |R| <= a.Length
    modifies a
    ensures i <= |L| && j <= |R| && (i == |L| || j == |R|)
    ensures k == left + i + j == left + |out|
    ensures a[..] == old(a[..])[..left] + out + old(a[..])[k..]
    ensures out + (L[i..] + R[j..]) == Sand.Merge(L, R)
  {
    ghost var s0, merged := a[..], Sand.Merge(L, R);
    i, j, k, out := 0, 0, left, [];
    assert L[i..] == L && R[j..] == R;
    while i < |L| && j < |R|
      invariant i <= |L| && j <= |R| && k == left + i + j == left + |out|
      invariant a[..] == s0[..left] + out + s0[k..]
      invariant out + Sand.Merge(L[i..], R[j..]) == merged
    {
      var x;
      i, j, x := TakeHead(a, left, L, R, i, j, k, out, s0, merged);
      out := out + [x];
      k := k + 1;
    }
    MergeRest(L, R, i, j);
  }

  /** The last two loops of `merge`: what is left of the left run, then what is
      left of the right run, is copied to the cells from `k` on. */
  method CopyBack(a: array<GrainOfSand>, l: seq<GrainOfSand>, r: seq<GrainOfSand>, i: nat, j: nat, k: nat)
    requires i <= |l| && j <= |r| && k + (|l| - i) + (|r| - j) <= a.Length
    modifies a
    ensures a[..] == old(a[..])[..k] + (l[i..] + r[j..]) + old(a[..])[k + |l[i..] + r[j..]|..]
  {
    ghost var s1 := a[..];
    var k1 := Drain(a, l, i, k);
    ghost var s2 := a[..];
    var k2 := Drain(a, r, j, k1);
    DrainTwice(s1, s2, a[..], l[i..], r[j..], k, k1, k2);
  }

  /** Copying `x` to the cells from `k` on, then `y` right after it. */
  lemma DrainTwice(s1: seq<GrainOfSand>, s2: seq<GrainOfSand>, s3: seq<GrainOfSand>,
                   x: seq<GrainOfSand>, y: seq<GrainOfSand>, k: nat, k1: nat, k2: nat)
    requires k1 == k + |x| && k2 == k1 + |y| <= |s1|
    requires s2 == s1[..k] + x + s1[k1..]
    requires s3 == s2[..k1] + y + s2[k2..]
    ensures s3 == s1[..k] + (x + y) + s1[k + |x + y|..]
  {
    assert s2[..k1] == s1[..k] + x;
    assert s2[k2..] == s1[k2..];
  }

  /** One round of the main loop of `merge`: the smaller head (the left one
      on a tie) is written to cell `k` and the run it came from advances. */
  method TakeHead(a: array<GrainOfSand>, left: nat, L: seq<GrainOfSand>, R: seq<GrainOfSand>, i: nat, j: nat, k: nat,
                  ghost out: seq<GrainOfSand>, ghost s0: seq<GrainOfSand>, ghost merged: seq<GrainOfSand>)
    returns (i': nat, j': nat, x: GrainOfSand)
    requires i < |L| && j < |R| && k == left + |out| < |s0| == a.Length
    requires a[..] == s0[..left] + out + s0[k..]
    requires out + Sand.Merge(L[i..], R[j..]) == merged
    modifies a
    ensures (i', j') == if Less(R[j], L[i]) then (i, j + 1) else (i + 1, j)
    ensures a[..] == s0[..left] + (out + [x]) + s0[k + 1..]
    ensures (out + [x]) + Sand.Merge(L[i'..], R[j'..]) == merged
  {
    ghost var before := a[..];
    if Less(R[j], L[i]) {
      x := R[j];
      i', j' := i, j + 1;
    } else {
      x := L[i];
      i', j' := i + 1, j;
    }
    a[k] := x;
    TakeStep(s0, before, a[..], left, out, L, R, i, j, i', j', x, merged);
  }

  /** One round of the main loop of `merge`: the smaller head `x` (the left one
      on a tie) is written to the next cell and extends the merged output. */
  lemma TakeStep(s0: seq<GrainOfSand>, before: seq<GrainOfSand>, after: seq<GrainOfSand>, left: nat,
                 out: seq<GrainOfSand>, l: seq<GrainOfSand>, r: seq<GrainOfSand>, i: nat, j: nat,
                 i': nat, j': nat, x: GrainOfSand, merged: seq<GrainOfSand>)
    requires i < |l| && j < |r| && left + |out| < |s0|
    requires before == s0[..left] + out + s0[left + |out|..]
    requires out + Sand.Merge(l[i..], r[j..]) == merged
    requires Less(r[j], l[i]) ==> x == r[j] && i' == i && j' == j + 1
    requires !Less(r[j], l[i]) ==> x == l[i] && i' == i + 1 && j' == j
    requires after == before[left + |out| := x]
    ensures after == s0[..left] + (out + [x]) + s0[left + |out| + 1..]
    ensures (out + [x]) + Sand.Merge(l[i'..], r[j'..]) == merged
  {
    MergeStep(l, r, i, j);
    WriteNext(s0, before, after, left, out, x);
    Emit(out, x, Sand.Merge(l[i'..], r[j'..]), merged);
  }

  /** Writing the next cell after the output written so far. */
  lemma WriteNext(s0: seq<GrainOfSand>, before: seq<GrainOfSand>, after: seq<GrainOfSand>,
                  pre: nat, out: seq<GrainOfSand>, x: GrainOfSand)
    requires pre + |out| < |s0|
    requires before == s0[..pre] + out + s0[pre + |out|..]
    requires after == before[pre + |out| := x]
    ensures after == s0[..pre] + (out + [x]) + s0[pre + |out| + 1..]
  {
    assert s0[pre + |out|..] == [s0[pre + |out|]] + s0[pre + |out| + 1..];
  }

  /** After the main loop one run is used up, so the merge of what is left is
      the rest of the left run followed by the rest of the right run. */
  lemma MergeRest(l: seq<GrainOfSand>, r: seq<GrainOfSand>, i: nat, j: nat)
    requires i <= |l| && j <= |r| && (i == |l| || j == |r|)
    ensures Sand.Merge(l[i..], r[j..]) == l[i..] + r[j..]
  {
    if i == |l| {
      assert l[i..] == [];
    } else {
      assert r[j..] == [];
    }
  }

  /** One of the two copy-back loops that finish `merge`: the rest of `run`
      from `i` on goes to the cells from `k` on. */
  method Drain(a: array<GrainOfSand>, run: seq<GrainOfSand>, i: nat, k: nat) returns (k': nat)
    requires i <= |run| && k + (|run| - i) <= a.Length
    modifies a
    ensures k' == k + (|run| - i)
    ensures a[..] == old(a[..])[..k] + run[i..] + old(a[..])[k'..]
  {
    ghost var s0 := a[..];
    var p := i;
    k' := k;
    while p < |run|
      invariant i <= p <= |run| && k' == k + (p - i)
      invariant a[..] == s0[..k] + run[i..p] + s0[k'..]
    {
      ghost var before := a[..];
      a[k'] := run[p];
      DrainStep(s0, before, a[..], run, i, p, k);
      p := p + 1;
      k' := k' + 1;
    }
  }

  /** One round of a copy-back loop: `run[p]` goes to the next cell. */
  lemma DrainStep(s0: seq<GrainOfSand>, before: seq<GrainOfSand>, after: seq<GrainOfSand>,
                  run: seq<GrainOfSand>, i: nat, p: nat, k: nat)
    requires i <= p < |run| && k + (p - i) < |s0|
    requires before == s0[..k] + run[i..p] + s0[k + (p - i)..]
    requires after == before[k + (p - i) := run[p]]
    ensures after == s0[..k] + run[i..p + 1] + s0[k + (p - i) + 1..]
  {
    WriteNext(s0, before, after, k, run[i..p], run[p]);
    assert run[i..p] + [run[p]] == run[i..p + 1];
  }

  /** Gluing the state after the main loop and the copy-back loops. */
  lemma DrainGlue(s0: seq<GrainOfSand>, s1: seq<GrainOfSand>, s2: seq<GrainOfSand>, t: MergeTask,
                  l: seq<GrainOfSand>, r: seq<GrainOfSand>, out: seq<GrainOfSand>, k: nat, rest: seq<GrainOfSand>)
    requires ValidTask(t, |s0|) && k == t.left + |out| && k + |rest| == t.right + 1
    requires l == s0[t.left..t.mid + 1] && r == s0[t.mid + 1..t.right + 1]
    requires out + rest == Sand.Merge(l, r)
    requires s1 == s0[..t.left] + out + s0[k..]
    requires s2 == s1[..k] + rest + s1[k + |rest|..]
    ensures s2 == MergeAt(s0, t)
  {
    assert s1[..k] == s0[..t.left] + out;
    assert s1[t.right + 1..] == s0[t.right + 1..];
  }
}
