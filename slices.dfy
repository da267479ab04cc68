/**
 * Half-open index ranges `[lo, hi)` and the ways `TeamAdventure` cuts an index
 * range into them: the column slices of one knapsack row and the crystal
 * ranges of `selectBestCrystal`.
 */
module Slices {

  /** The index range `[lo, hi)`. */
  datatype Slice = Slice(lo: nat, hi: nat)

  /** `slices` cover `[lo, hi)` from left to right, each one starting where the
      previous one ended; a slice may be empty. */
  predicate Chain(slices: seq<Slice>, lo: nat, hi: nat)
    decreases |slices|
  {
    if slices == [] then lo == hi
    else slices[0].lo == lo <= slices[0].hi <= hi && Chain(slices[1..], slices[0].hi, hi)
  }

  /** Index `c` lies in one of the slices. */
  predicate Covers(slices: seq<Slice>, c: nat) {
    exists i :: 0 <= i < |slices| && slices[i].lo <= c < slices[i].hi
  }

  /** A chain is a partition of `[lo, hi)`: every slice lies inside it, the
      slices come in order without overlapping, and every index of `[lo, hi)`
      lies in some slice. */
  lemma {:induction false} ChainPartition(slices: seq<Slice>, lo: nat, hi: nat)
    requires Chain(slices, lo, hi)
    ensures lo <= hi
    ensures forall i :: 0 <= i < |slices| ==> lo <= slices[i].lo <= slices[i].hi <= hi
    ensures forall i, j :: 0 <= i < j < |slices| ==> slices[i].hi <= slices[j].lo
    ensures forall c :: lo <= c < hi ==> Covers(slices, c)
    decreases |slices|
  {
    if slices != [] {
      var rest := slices[1..];
      ChainPartition(rest, slices[0].hi, hi);
      forall i, j | 0 <= i < j < |slices| ensures slices[i].hi <= slices[j].lo {
        assert slices[j] == rest[j - 1];
        if i > 0 {
          assert slices[i] == rest[i - 1];
        }
      }
      forall c | lo <= c < hi ensures Covers(slices, c) {
        if slices[0].hi <= c {
          assert Covers(rest, c);
          var i :| 0 <= i < |rest| && rest[i].lo <= c < rest[i].hi;
          assert slices[i + 1] == rest[i];
        }
      }
    }
  }

  /** The column slices of one knapsack row from `left` on: slices of width
      `size` while a whole one fits below `width`, then a last slice up to
      `width`, possibly empty. A `size` of 0 gives the single slice `[left, width)`. */
  function SlicesFrom(width: nat, size: nat, left: nat): seq<Slice>
    requires left <= width
    decreases width - left
  {
    if size > 0 && left + size <= width then [Slice(left, left + size)] + SlicesFrom(width, size, left + size)
    else [Slice(left, width)]
  }

  /** The slices `packEggs` submits for one row of `width` columns and `k` shamans. */
  function RowSlices(width: nat, k: nat): seq<Slice>
    requires k >= 1
  {
    SlicesFrom(width, width / k, 0)
  }

  function Last(slices: seq<Slice>): Slice
    requires slices != []
  {
    slices[|slices| - 1]
  }

  /** The slices from `left` on, as the first one and the ones after it. */
  lemma SlicesFromCons(width: nat, size: nat, left: nat)
    requires left <= width && size > 0 && left + size <= width
    ensures SlicesFrom(width, size, left)[0] == Slice(left, left + size)
    ensures SlicesFrom(width, size, left)[1..] == SlicesFrom(width, size, left + size)
  {
  }

  lemma {:induction false} SlicesFromChain(width: nat, size: nat, left: nat)
    requires left <= width
    ensures Chain(SlicesFrom(width, size, left), left, width)
    decreases width - left
  {
    if size > 0 && left + size <= width {
      SlicesFromChain(width, size, left + size);
      SlicesFromCons(width, size, left);
    }
  }

  lemma {:induction false} SlicesFromWidths(width: nat, size: nat, left: nat)
    requires left <= width
    ensures forall i :: 0 <= i < |SlicesFrom(width, size, left)| - 1 ==>
      SlicesFrom(width, size, left)[i].hi - SlicesFrom(width, size, left)[i].lo == size
    decreases width - left
  {
    if size > 0 && left + size <= width {
      var r, rest := SlicesFrom(width, size, left), SlicesFrom(width, size, left + size);
      SlicesFromWidths(width, size, left + size);
      SlicesFromCons(width, size, left);
      forall i | 0 <= i < |r| - 1 ensures r[i].hi - r[i].lo == size {
        if i > 0 {
          assert r[i] == r[1..][i - 1];
        }
      }
    }
  }

  lemma {:induction false} SlicesFromLast(width: nat, size: nat, left: nat)
    requires left <= width
    ensures size == 0 || Last(SlicesFrom(width, size, left)).hi - Last(SlicesFrom(width, size, left)).lo < size
    decreases width - left
  {
    if size > 0 && left + size <= width {
      SlicesFromLast(width, size, left + size);
      SlicesFromCons(width, size, left);
      var r := SlicesFrom(width, size, left);
      assert Last(r) == r[1..][|r| - 2];
    }
  }

  /** The slicing of one row from `left` on: the slices chain `[left, width)`,
      all but the last have width `size`, and the last one is narrower. */
  lemma SlicesFromShape(width: nat, size: nat, left: nat)
    requires left <= width
    ensures Chain(SlicesFrom(width, size, left), left, width)
    ensures forall i :: 0 <= i < |SlicesFrom(width, size, left)| - 1 ==>
      SlicesFrom(width, size, left)[i].hi - SlicesFrom(width, size, left)[i].lo == size
    ensures size == 0 || Last(SlicesFrom(width, size, left)).hi - Last(SlicesFrom(width, size, left)).lo < size
  {
    SlicesFromChain(width, size, left);
    SlicesFromWidths(width, size, left);
    SlicesFromLast(width, size, left);
  }

  /** The slices of one row partition its columns `[0, width)`: all but the
      last have width `width / k`, the last is narrower (it may be empty), and
      when `width / k == 0` the whole row is one slice. */
  lemma RowSlicesPartition(width: nat, k: nat)
    requires k >= 1
    ensures Chain(RowSlices(width, k), 0, width)
    ensures forall i :: 0 <= i < |RowSlices(width, k)| - 1 ==> RowSlices(width, k)[i].hi - RowSlices(width, k)[i].lo == width / k
    ensures width / k == 0 || Last(RowSlices(width, k)).hi - Last(RowSlices(width, k)).lo < width / k
    ensures width / k == 0 ==> RowSlices(width, k) == [Slice(0, width)]
  {
    SlicesFromShape(width, width / k, 0);
  }

  /** The crystal ranges from `left` on: `count` ranges of length `size`, then
      one range up to `n`. */
  function Ranges(count: nat, size: nat, left: nat, n: nat): seq<Slice>
    decreases count
  {
    if count == 0 then [Slice(left, n)] else [Slice(left, left + size)] + Ranges(count - 1, size, left + size, n)
  }

  /** The ranges `selectBestCrystal` cuts `[0, n)` into for `k` shamans. */
  function CrystalRanges(n: nat, k: nat): seq<Slice>
    requires k >= 1
  {
    Ranges(k - 1, n / k, 0, n)
  }

  lemma {:induction false} RangesShape(count: nat, size: nat, left: nat, n: nat)
    requires left + count * size <= n
    ensures |Ranges(count, size, left, n)| == count + 1
    ensures Chain(Ranges(count, size, left, n), left, n)
    ensures forall i :: 0 <= i < count ==> Ranges(count, size, left, n)[i] == Slice(left + i * size, left + (i + 1) * size)
    decreases count
  {
    var r := Ranges(count, size, left, n);
    if count > 0 {
      var rest := Ranges(count - 1, size, left + size, n);
      assert left + size + (count - 1) * size == left + count * size;
      RangesShape(count - 1, size, left + size, n);
      assert r[1..] == rest;
      forall i | 0 <= i < count ensures r[i] == Slice(left + i * size, left + (i + 1) * size) {
        if i > 0 {
          assert r[i] == rest[i - 1];
          assert left + size + (i - 1) * size == left + i * size;
          assert left + size + i * size == left + (i + 1) * size;
        }
      }
    }
  }

  /** The crystal ranges partition `[0, n)`: `k` ranges, the first `k - 1` of
      them `[i * (n / k), (i + 1) * (n / k))`, and the last one the rest. */
  lemma CrystalRangesPartition(n: nat, k: nat)
    requires k >= 1
    ensures |CrystalRanges(n, k)| == k
    ensures Chain(CrystalRanges(n, k), 0, n)
    ensures forall i :: 0 <= i < k - 1 ==> CrystalRanges(n, k)[i] == Slice(i * (n / k), (i + 1) * (n / k))
  {
    var size := n / k;
    assert k * size + n % k == n;
    assert (k - 1) * size + size == k * size;
    RangesShape(k - 1, size, 0, n);
  }
}
