/**
 * Eggs, the bottomless bag, and the specification of `packEggs`: the 0/1
 * knapsack in which an egg's size is its cost and its weight is its value.
 *
 * `Best(eggs, i, w)` is the table entry `m[i][w]` both adventures fill: the
 * best total weight using the first `i` eggs with capacity `w`. A packing is a
 * choice, egg by egg, of whether to take it; `Best` is proved to be exactly the
 * largest total weight of a packing whose total size fits.
 */
module Eggs {
  import opened Adventure

  datatype Egg = Egg(size: nat, weight: nat)

  datatype BottomlessBag = BottomlessBag(capacity: nat)

  /** The table entry `m[i][w]`, by the recurrence of the table: row 0 is zero;
      an egg larger than `w` cannot be taken; otherwise the better of leaving it
      and taking it. */
  function Best(eggs: seq<Egg>, i: nat, w: nat): nat
    requires i <= |eggs|
    decreases i
  {
    if i == 0 then 0
    else if eggs[i - 1].size > w then Best(eggs, i - 1, w)
    else Max(Best(eggs, i - 1, w), eggs[i - 1].weight + Best(eggs, i - 1, w - eggs[i - 1].size))
  }

  /** Total size of the eggs a packing takes; `pick[j]` says whether egg `j` is taken. */
  function PackedSize(eggs: seq<Egg>, pick: seq<bool>): nat
    requires |pick| <= |eggs|
    decreases |pick|
  {
    if pick == [] then 0
    else PackedSize(eggs, pick[..|pick| - 1]) + (if pick[|pick| - 1] then eggs[|pick| - 1].size else 0)
  }

  /** Total weight of the eggs a packing takes. */
  function PackedWeight(eggs: seq<Egg>, pick: seq<bool>): nat
    requires |pick| <= |eggs|
    decreases |pick|
  {
    if pick == [] then 0
    else PackedWeight(eggs, pick[..|pick| - 1]) + (if pick[|pick| - 1] then eggs[|pick| - 1].weight else 0)
  }

  /** No packing of the first `|pick|` eggs that fits capacity `w` weighs more
      than `Best`. */
  lemma {:induction false} PackingBound(eggs: seq<Egg>, pick: seq<bool>, w: nat)
    requires |pick| <= |eggs| && PackedSize(eggs, pick) <= w
    ensures PackedWeight(eggs, pick) <= Best(eggs, |pick|, w)
    decreases |pick|
  {
    if pick != [] {
      var i := |pick|;
      var init := pick[..i - 1];
      if pick[i - 1] {
        PackingBound(eggs, init, w - eggs[i - 1].size);
      } else {
        PackingBound(eggs, init, w);
      }
    }
  }

  /** A packing of the first `i` eggs that fits capacity `w` and weighs exactly
      `Best(eggs, i, w)`: the choices the table's recurrence makes. */
  function BestPacking(eggs: seq<Egg>, i: nat, w: nat): (pick: seq<bool>)
    requires i <= |eggs|
    ensures |pick| == i
    ensures PackedSize(eggs, pick) <= w
    ensures PackedWeight(eggs, pick) == Best(eggs, i, w)
    decreases i
  {
    if i == 0 then []
    else
      var egg := eggs[i - 1];
      var pick :=
        if egg.size > w || Best(eggs, i - 1, w) > egg.weight + Best(eggs, i - 1, w - egg.size)
        then BestPacking(eggs, i - 1, w) + [false]
        else BestPacking(eggs, i - 1, w - egg.size) + [true];
      assert pick[..i - 1] + [pick[i - 1]] == pick;
      pick
  }

  /** `Best(eggs, |eggs|, w)` is the optimum of the 0/1 knapsack: every packing
      that fits weighs at most that much, and some packing that fits weighs
      exactly that much. */
  lemma KnapsackOptimum(eggs: seq<Egg>, w: nat)
    ensures forall pick ::
      |pick| == |eggs| && PackedSize(eggs, pick) <= w ==> PackedWeight(eggs, pick) <= Best(eggs, |eggs|, w)
    ensures exists pick ::
      |pick| == |eggs| && PackedSize(eggs, pick) <= w && PackedWeight(eggs, pick) == Best(eggs, |eggs|, w)
  {
    forall pick | |pick| == |eggs| && PackedSize(eggs, pick) <= w
      ensures PackedWeight(eggs, pick) <= Best(eggs, |eggs|, w)
    {
      PackingBound(eggs, pick, w);
    }
    var best := BestPacking(eggs, |eggs|, w);
  }

  /** More room never lowers the best weight. */
  lemma {:induction false} BestMonotoneInCapacity(eggs: seq<Egg>, i: nat, w: nat, w': nat)
    requires i <= |eggs| && w <= w'
    ensures Best(eggs, i, w) <= Best(eggs, i, w')
    decreases i
  {
    if i > 0 {
      var egg := eggs[i - 1];
      BestMonotoneInCapacity(eggs, i - 1, w, w');
      if egg.size <= w {
        BestMonotoneInCapacity(eggs, i - 1, w - egg.size, w' - egg.size);
      }
    }
  }

  /** The table is monotone in both directions: one more egg (`m[i][jw] >=
      m[i-1][jw]`) or more room never lowers an entry. */
  lemma {:induction false} BestMonotone(eggs: seq<Egg>, i: nat, w: nat, i': nat, w': nat)
    requires i <= i' <= |eggs| && w <= w'
    ensures Best(eggs, i, w) <= Best(eggs, i', w')
    decreases i'
  {
    if i' == i {
      BestMonotoneInCapacity(eggs, i, w, w');
    } else {
      BestMonotone(eggs, i, w, i' - 1, w');
    }
  }

  /** Capacity 0 does not force the result to 0: it is 0 when no egg has size 0,
      but an egg of size 0 fits at `jw = 0` and its weight counts. */
  lemma {:induction false} ZeroCapacity(eggs: seq<Egg>, i: nat)
    requires i <= |eggs|
    ensures (forall j :: 0 <= j < i ==> eggs[j].size > 0) ==> Best(eggs, i, 0) == 0
    ensures (exists j :: 0 <= j < i && eggs[j].size == 0 && eggs[j].weight > 0) ==> Best(eggs, i, 0) > 0
    decreases i
  {
    if i > 0 {
      ZeroCapacity(eggs, i - 1);
      if exists j :: 0 <= j < i && eggs[j].size == 0 && eggs[j].weight > 0 {
        var j :| 0 <= j < i && eggs[j].size == 0 && eggs[j].weight > 0;
        if j < i - 1 {
          BestMonotone(eggs, i - 1, 0, i, 0);
        }
      }
    }
  }
}
