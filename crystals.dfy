/**
 * Crystals and the running maximum both adventures compute over them.
 *
 * A crystal is compared by its value alone; the default crystal, which both
 * `Crystal()` and `Crystal(0)` construct, has the least value, so no crystal
 * is less than it.
 */
module Crystals {
  import opened Slices

  datatype Crystal = Crystal(value: nat)

  /** The crystal a running maximum starts from. */
  const Default := Crystal(0)

  /** `a < b` on crystals. */
  predicate Less(a: Crystal, b: Crystal) {
    a.value < b.value
  }

  /** One step of the scan: the candidate replaces the best so far only when it
      is strictly greater. */
  function Pick(best: Crystal, candidate: Crystal): (r: Crystal)
    ensures !Less(r, best) && !Less(r, candidate)
    ensures r == best || r == candidate
  {
    if Less(best, candidate) then candidate else best
  }

  /** The result of scanning `s` from left to right, starting from `Default`. */
  function Maximum(s: seq<Crystal>): Crystal
    decreases |s|
  {
    if s == [] then Default else Pick(Maximum(s[..|s| - 1]), s[|s| - 1])
  }

  /** No crystal of `s` is greater than its maximum. */
  lemma {:induction false} MaximumIsUpperBound(s: seq<Crystal>)
    ensures forall i :: 0 <= i < |s| ==> !Less(Maximum(s), s[i])
    decreases |s|
  {
    if s != [] {
      var init := s[..|s| - 1];
      MaximumIsUpperBound(init);
      forall i | 0 <= i < |s| ensures !Less(Maximum(s), s[i]) {
        if i < |s| - 1 {
          assert s[i] == init[i];
        }
      }
    }
  }

  /** The maximum is the default crystal or one of the crystals of `s`; it is
      the default crystal when `s` is empty. */
  lemma {:induction false} MaximumIsMemberOrDefault(s: seq<Crystal>)
    ensures Maximum(s) == Default || Maximum(s) in s
    ensures s == [] ==> Maximum(s) == Default
    decreases |s|
  {
    if s != [] {
      var init := s[..|s| - 1];
      MaximumIsMemberOrDefault(init);
      if Maximum(init) in init {
        var i :| 0 <= i < |init| && init[i] == Maximum(init);
        assert s[i] == init[i];
      }
    }
  }

  /** Scanning a concatenation is scanning each part and then picking between
      the two maxima: this is why per-range maxima can be folded. */
  lemma {:induction false} MaximumOfConcat(x: seq<Crystal>, y: seq<Crystal>)
    ensures Maximum(x + y) == Pick(Maximum(x), Maximum(y))
    decreases |y|
  {
    if y == [] {
      assert x + y == x;
      assert !Less(Maximum(x), Default);
    } else {
      var init := y[..|y| - 1];
      assert (x + y)[..|x + y| - 1] == x + init;
      assert (x + y)[|x + y| - 1] == y[|y| - 1];
      MaximumOfConcat(x, init);
    }
  }

  /** The maximum of the crystals in the index range `r`; the default crystal
      for a range that is empty, reversed or past the end. */
  function MaximumOver(crystals: seq<Crystal>, r: Slice): Crystal {
    if r.lo <= r.hi <= |crystals| then Maximum(crystals[r.lo..r.hi]) else Default
  }

  /** The per-range maxima, in the order of the ranges. */
  function Maxima(crystals: seq<Crystal>, ranges: seq<Slice>): (ms: seq<Crystal>)
    ensures |ms| == |ranges|
    decreases |ranges|
  {
    if ranges == [] then [] else [MaximumOver(crystals, ranges[0])] + Maxima(crystals, ranges[1..])
  }

  /** Folding candidates into a running maximum, first to last, with the same
      strict rule as the scan. */
  function FoldPick(best: Crystal, candidates: seq<Crystal>): Crystal
    decreases |candidates|
  {
    if candidates == [] then best else FoldPick(Pick(best, candidates[0]), candidates[1..])
  }

  /** Folding the maxima of ranges that chain `[lo, hi)` into the maximum of the
      prefix before `lo` gives the maximum of the prefix before `hi`. */
  lemma {:induction false} FoldMaxima(crystals: seq<Crystal>, ranges: seq<Slice>, lo: nat, hi: nat)
    requires Chain(ranges, lo, hi) && hi <= |crystals|
    ensures FoldPick(Maximum(crystals[..lo]), Maxima(crystals, ranges)) == Maximum(crystals[..hi])
    decreases |ranges|
  {
    if ranges != [] {
      var mid := ranges[0].hi;
      ChainPartition(ranges, lo, hi);
      MaximumOfConcat(crystals[..lo], crystals[lo..mid]);
      assert crystals[..lo] + crystals[lo..mid] == crystals[..mid];
      FoldMaxima(crystals, ranges[1..], mid, hi);
    }
  }

  /** Cutting the crystals into ranges that partition them, taking each range's
      maximum and folding those maxima gives the maximum of the whole sequence. */
  lemma MaximaOfPartition(crystals: seq<Crystal>, ranges: seq<Slice>)
    requires Chain(ranges, 0, |crystals|)
    ensures FoldPick(Default, Maxima(crystals, ranges)) == Maximum(crystals)
  {
    FoldMaxima(crystals, ranges, 0, |crystals|);
    assert crystals[..0] == [] && crystals[..|crystals|] == crystals;
  }
}
