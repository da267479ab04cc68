# Adventure: knapsack, merge sort and maximum, alone and as a team

This project models `adventure.h`, the core of a small C++ system. It
solves three problems in two interchangeable ways.

- **`packEggs`** is the 0/1 knapsack. Eggs have a size (the cost) and a
  weight (the value), and a bottomless bag has a capacity.
- **`arrangeSand`** is a bottom-up merge sort of grains of sand, done in
  place.
- **`selectBestCrystal`** finds the greatest crystal. A running maximum
  starts from the default crystal.

`LonesomeAdventure` runs each algorithm step by step.
`TeamAdventure` hands the work to a pool of `numberOfShamans` workers:

- one knapsack task for each column slice of a table row;
- one merge task for each block of a sort pass above block size 8;
- one range-maximum task for each crystal range.

Each batch of tasks is drained front to back before the next batch starts.
Both classes share `Adventure::merge` and `Adventure::max`.

Modules:

- `Sand`: grains and the merge function. `MergeTask`/`PassTasks` are the
  merges a pass issues. `RunTasks` runs them in queue order.
  `SortPasses`/`ArrangeSandSpec` give the whole sort. `Pass` is an
  independent definition of one pass, used to prove the sort sorted, a
  permutation and stable.
- `Eggs`: eggs, the bag, the table recurrence `Best`, and packings with
  their size and weight.
- `Crystals`: crystals, the running maximum `Maximum`, and folding
  per-range maxima.
- `Slices`: half-open index ranges. These are the column slices of one
  knapsack row and the crystal ranges, each proved to partition its range.
- `Adventure`: `max` and the in-place `merge` over an `array`.
- `Lonesome`: the sequential algorithms. The class has no state, so they
  are methods of the module.
- `Team`: class `TeamAdventure` with its worker count. Each operation
  drains its task queue in order.

Each array method is proved against a function of the old array
contents. Each of those functions is proved to mean what the algorithm
promises. Both adventures are proved to yield the same specification
values: `Best(eggs, |eggs|, W)`, `ArrangeSandSpec(old contents)` and
`Maximum(crystals)`.

## Model

| member | source | states |
|---|---|---|
| Adventure.Max | adventure.h:23 | the result is at least both arguments and is one of them |
| Adventure.Merge | adventure.h:25-62 | the array becomes `MergeAt` of its old contents: the cells before `left` and after `right` are untouched, and `[left, right]` holds the two-pointer merge of runs `[left, m]` and `(m, right]` |
| Adventure.MergeCall | adventure.h:25-62 | if both runs are sorted, one merge call leaves `[left, right]` sorted and a permutation of what it held; for every key, the left run's grains come before the right run's (ties go left, line 41); nothing outside the segment changes |
| Adventure.MergeHeads | adventure.h:36-49 | the main loop stops when one run is exhausted, after writing `out` to cells `[left, k)`, with `k == left + i + j`; `out` followed by the merge of the unread rest is the full merge of the runs |
| Adventure.TakeHead | adventure.h:40-49 | one round writes the right head only if it is strictly less than the left head, otherwise the left head; it advances that run alone and keeps the merge invariant |
| Adventure.CopyBack | adventure.h:51-61 | the two tail loops copy the rest of the left run and then the rest of the right run to the cells from `k`; other cells are unchanged |
| Adventure.Drain | adventure.h:51-61 | one tail loop copies the unread suffix of a run to consecutive cells from `k` and returns the cell after them; no other cell changes |
| Sand.Merge | adventure.h:36-61 | the two-pointer merge as a function of the two runs: a grain of the right run goes first only when it is strictly less than the current left grain; once one run is used up the rest of the other follows; the result has the length of both runs |
| Sand.MergeAt | adventure.h:25-62 | the whole array after one `merge(grains, left, m, right)` call: the prefix before `left`, the merge of `[left, m]` and `(m, right]`, the suffix after `right` |
| Sand.PassTasks | adventure.h:97-104 | the merge calls one pass issues from `left` on, in order: one per full block `[left, left + size - 1]` split after `left + (size - 1) / 2`, then the tail block up to `n - 1` when its left half is complete (the same calls the team queue holds, lines 184-195) |
| Sand.RunTasks | adventure.h:197-200 | the array after a queue of merge calls runs front to back |
| Sand.Pass | adventure.h:96-105 | an independent, position-free definition of one pass: merge the two halves of the first block, then pass over the rest, with the tail block merged when its left half is complete |
| Sand.SortPasses | adventure.h:96-108 | the outer loop of `arrangeSand`: a pass for each block size from `size` while it is at most twice the length, doubling it each time |
| Sand.ArrangeSandSpec | adventure.h:91-109 | the array `arrangeSand` leaves, as a function of the input: the passes from block size 2 |
| Sand.RunTasksAppend | adventure.h:197-200 | draining two queues one after the other is draining their concatenation |
| Sand.SwapAdjacent | adventure.h:184-200 | two adjacent tasks of a queue whose ranges are disjoint can trade places without changing the resulting array |
| Sand.MergePermutes | adventure.h:25-62 | the merge is a permutation of its two runs together |
| Sand.MergeSorted | adventure.h:25-62 | the merge of two sorted runs is sorted |
| Sand.MergeStable | adventure.h:40-49 | for every key, the merge keeps the left run's grains of that key before the right run's, each in its own order |
| Sand.MergeOfSortedRuns | adventure.h:25-62 | sorted runs merge into a sorted, stable permutation of their concatenation |
| Sand.PassTasksValid | adventure.h:97-104 | every merge a pass issues lies inside the array, at or after the pass's start |
| Sand.PassTasksDisjoint | adventure.h:184-195 | the merges of one pass (the task queue) touch pairwise disjoint index ranges, in increasing order |
| Sand.MergesCommute | adventure.h:184-200 | two merges on disjoint ranges give the same array in either order |
| Sand.RunPassTasks | adventure.h:97-104 | running a pass's merges in issue order gives the prefix unchanged followed by the reference pass `Pass` of the suffix |
| Sand.PassSorted | adventure.h:96-108 | a pass turns sorted blocks of half the size into sorted blocks of the block size |
| Sand.PassPermutes | adventure.h:96-108 | a pass is a permutation |
| Sand.PassStable | adventure.h:96-108 | a pass keeps, for every key, the grains of that key in their order |
| Sand.SortPassesCorrect | adventure.h:96-108 | passes starting from sorted half-blocks end sorted, permuted and stable |
| Sand.ArrangeSandIsStableSort | adventure.h:91-109 | the sort result is sorted, a permutation of the input, and stable |
| Sand.StableSortUnique | adventure.h:91-109 | two sorted sequences that agree key by key are equal, so any stable sort gives the same result as `arrangeSand` |
| Sand.ArrangeSandIdempotent | adventure.h:91-109 | sorting a sorted sequence changes nothing |
| Sand.ArrangeSandShort | adventure.h:96 | with 0 or 1 grains the sort is a no-op |
| Eggs.Best | adventure.h:76-86 | the table entry `m[i][w]`: row 0 is zero; an egg larger than `w` is left out; otherwise the larger of leaving it and taking it |
| Eggs.PackingBound | adventure.h:78-87 | no packing of the first eggs that fits a capacity weighs more than the table entry for them |
| Eggs.BestPacking | adventure.h:78-87 | some packing of the first `i` eggs fits capacity `w` and weighs exactly `m[i][w]` |
| Eggs.KnapsackOptimum | adventure.h:69-89 | `m[n][W]` is the 0/1 knapsack optimum: an upper bound on every fitting packing, and reached by one |
| Eggs.BestMonotoneInCapacity | adventure.h:78-87 | more capacity never lowers a table entry |
| Eggs.BestMonotone | adventure.h:78-87 | a table entry never drops with more eggs or more capacity |
| Eggs.ZeroCapacity | adventure.h:76-87 | capacity 0 gives 0 when every egg has positive size, and a positive result when some egg of size 0 has positive weight |
| Slices.SlicesFrom | adventure.h:144-156 | the column slices of one row from `left` on: width-`size` slices while one fits, then the remainder up to the row's end (the whole row when `size` is 0) |
| Slices.RowSlices | adventure.h:143-156 | the slices of a row of `W + 1` columns for `numberOfShamans` workers, slice width `(W + 1) / numberOfShamans` |
| Slices.Ranges | adventure.h:221-231 | the crystal ranges from `left` on: `count` ranges of length `size`, then the range up to `n` |
| Slices.CrystalRanges | adventure.h:219-231 | the ranges of `selectBestCrystal`: `numberOfShamans - 1` ranges of length `n / numberOfShamans`, then the rest |
| Slices.ChainPartition | adventure.h:142-156 | slices that chain `[lo, hi)` lie inside it, do not overlap, come in order and cover every index |
| Slices.SlicesFromShape | adventure.h:143-156 | the slicing loop's slices chain the row; all but the last have width `size`, and the last is narrower |
| Slices.RowSlicesPartition | adventure.h:142-156 | one row's slices partition its `W + 1` columns: full slices of width `(W + 1) / numberOfShamans`, then a remainder slice that may be empty, or the whole row as one slice when that width is 0 |
| Slices.RangesShape | adventure.h:219-231 | the range loop's ranges chain `[left, n)`, the first ones of length `size` |
| Slices.CrystalRangesPartition | adventure.h:219-231 | the crystal ranges are `numberOfShamans` ranges that partition `[0, n)`; all but the last are `[i * (n / k), (i + 1) * (n / k))` |
| Crystals.Maximum | adventure.h:112-120 | the running maximum of a left-to-right scan seeded with the default crystal, replaced only by a strictly greater crystal |
| Crystals.MaximumOver | adventure.h:249-258 | `intervalMax`: the scan maximum of the crystals of an index range, the default crystal for an empty or reversed range |
| Crystals.Maxima | adventure.h:223-231 | the per-range maxima, in the order the tasks are queued |
| Crystals.FoldPick | adventure.h:233-240 | folding queued results into a running maximum front to back, replacing it only by a strictly greater crystal |
| Crystals.Pick | adventure.h:115-117 | one step of the scan is no less than the best so far or the candidate, and is one of them |
| Crystals.MaximumIsUpperBound | adventure.h:111-121 | no crystal is greater than the scan's result |
| Crystals.MaximumIsMemberOrDefault | adventure.h:111-121 | the scan's result is the default crystal or a member, and the default for no crystals |
| Crystals.MaximumOfConcat | adventure.h:233-240 | scanning a concatenation is picking between the scans of its parts |
| Crystals.FoldMaxima | adventure.h:233-240 | folding the maxima of chained ranges continues the scan of the prefix |
| Crystals.MaximaOfPartition | adventure.h:217-243 | folding the per-range maxima of a partition gives the maximum of the whole collection |
| Lonesome.PackEggs | adventure.h:69-89 | returns `m[n][W]`, the knapsack optimum: no fitting packing weighs more and one weighs exactly this; 0 for no eggs |
| Lonesome.FillRow | adventure.h:79-86 | the inner loop fills row `i` with the table entries, given the rows before it, and leaves the rows after it unchanged |
| Lonesome.FillCell | adventure.h:80-85 | one cell `m[i][jw]` gets its table entry from row `i - 1`; no other cell changes |
| Lonesome.ArrangeSand | adventure.h:91-109 | the array becomes `ArrangeSandSpec` of its old contents: sorted, a permutation, stable, and unchanged for length at most 1 |
| Lonesome.MergePass | adventure.h:96-105 | one pass issues the merges of `PassTasks` in order: the full blocks, then the tail block |
| Lonesome.MergeBlock | adventure.h:97-101 | the array becomes `MergeAt` of its old contents for the block's merge call, which is the next task of the pass |
| Lonesome.MergeTail | adventure.h:102-104 | merging the tail block is the last task of the pass |
| Lonesome.SelectBestCrystal | adventure.h:111-121 | returns the scan maximum: no crystal is greater, it is the default or a member, and the default for no crystals |
| Team.TeamAdventure.constructor | adventure.h:126-128 | records the worker count |
| Team.TeamAdventure.PackEggs | adventure.h:130-172 | returns the same table entry as the lonesome version, so the same optimum (upper bound on every fitting packing, reached by one) |
| Team.TeamAdventure.SliceRow | adventure.h:143-156 | the tasks of one row are exactly `RowSlices(W + 1, numberOfShamans)` |
| Team.TeamAdventure.FillRow | adventure.h:155-161 | draining a row's slice tasks whose slices partition the row fills row `i` with the table entries and leaves the rows after it unchanged |
| Team.TeamAdventure.RunSlice | adventure.h:260-269 | one slice task gives its cells of row `i` their table entries, given the rows before it, and changes no other cell |
| Team.TeamAdventure.Knapsack | adventure.h:260-269 | `knapsack` fills cells `[left, right)` of row `i` by the recurrence and writes no other cell |
| Team.TeamAdventure.ArrangeSand | adventure.h:174-215 | the array becomes the same `ArrangeSandSpec` as the lonesome sort: sorted, permuted, stable, and unchanged for length at most 1 |
| Team.TeamAdventure.Pass | adventure.h:181-210 | each pass, whether queued or inline, runs `PassTasks` in order |
| Team.TeamAdventure.PassQueue | adventure.h:184-195 | the queued merges are exactly `PassTasks` |
| Team.TeamAdventure.RunQueue | adventure.h:197-200 | draining the queue runs its merges front to back |
| Team.TeamAdventure.SelectBestCrystal | adventure.h:217-243 | folding the range maxima gives `Maximum(crystals)`, the lonesome result; no crystal is greater, and it is the default or a member |
| Team.TeamAdventure.RangeMaxima | adventure.h:218-231 | the queued results are the maxima of `CrystalRanges(n, numberOfShamans)`, in order |
| Team.TeamAdventure.IntervalMax | adventure.h:249-258 | the scan maximum of `crystals[begin..end)`, and the default crystal for an empty or reversed range |
| Team.MaximaSnoc | adventure.h:223-231 | one more range adds its maximum at the end of the collected results |

## Left out

- The thread pool, futures and `std::queue` are not modelled as
  concurrency. A batch of tasks runs one task after the other in queue
  order. `Sand.PassTasksDisjoint` and `Sand.MergesCommute` show that the
  merges of one batch touch disjoint cells. `Team.TeamAdventure.Knapsack`
  shows that each slice task writes only its own cells of the current row.
  `Sand.SwapAdjacent` shows that two adjacent tasks of a batch can trade
  places without changing the result. So, by repeated swaps, the tasks of
  one batch run in any order give the same array. Interleavings within a
  task, and task order as a permutation theorem, are not stated.
- The `new`/`delete` of the team knapsack table is not modelled. Both
  tables are an `array2<nat>`.
- uint64 and `size_t` wrap-around is not modelled: sizes, weights,
  capacities and table entries are unbounded naturals. This also covers
  `W + 1` and `left + currentSize - 1`.
- `numberOfShamans` must be at least 1. The code divides by it but never
  checks it, so the model makes it the type `Positive`, enforced at
  construction.
- `types.h` is not part of this model. A grain is a `key`, which `<`
  compares, and an `id` for everything else it carries. A crystal is a
  natural `value`, compared by `<`. `Crystal()` and `Crystal(0)` are taken
  to be the same least crystal.
- The scratch vectors `L` and `R` of `merge` are slices of the array
  taken before the merge. Their element-by-element copy loops (lines
  33-34) are not modelled step by step.
- The crystal vector is a `seq`: nothing in the core modifies it.
- `Sand.RunTasks` skips a task that does not fit the array. No pass
  submits such a task (`Sand.PassTasksValid`).
- Each loop body that writes an array is its own method
  (`Adventure.TakeHead`, `Lonesome.FillRow`/`Lonesome.FillCell`,
  `Lonesome.MergeBlock`/`Lonesome.MergeTail`). The loops and the order of
  writes are the same as in the source.
- Two behaviours of the code are modelled as written:
  - `packEggs` with capacity 0 can return more than 0. An egg of size 0
    fits at `jw = 0` and its weight counts (`Eggs.ZeroCapacity`).
  - A knapsack row is not cut into exactly `numberOfShamans` slices. It
    gets as many full slices of width `(W + 1) / numberOfShamans` as fit,
    then one more slice for the remainder, which may be empty
    (`Slices.RowSlicesPartition`).
