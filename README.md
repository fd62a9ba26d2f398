# Steppable quicksort and Poisson-disc sampling, modelled in Dafny

The repository has two small interactive demos. This project models the two
engines inside them and proves what they promise. The window, drawing and
input code around the engines is not modelled.

**The quicksort automaton (`quickSort.h`).** This is a Lomuto quicksort over
the `angle` keys of `lines`. It is cut into micro-steps: each call of
`updateSort()` does one comparison of the scan, the pivot placement, the
SWAP-to-RECURSE tick, or one recursion decision. It keeps its pending ranges
on an explicit stack.

- Module `QuickSortSpec` holds the pure model:
  - a `Snapshot` of the globals at quickSort.h:22-27;
  - one step as the function `Step`;
  - the invariant `Inv` that every snapshot from `Begin` on keeps (the idle snapshot of the globals' initial values has it only when the keys are already sorted);
  - the run to the end, `Run`.
- `Inv` says:
  - each pending range (the stack plus the open frame) is a disjoint block of keys already in its final place as a block;
  - every key outside the pending ranges is already in its final place;
  - while a frame is open, its scan is in the Lomuto shape.
- Module `QuickSortMachine` holds the imperative model. Class `SortAutomaton` has the globals as fields and `lines` as an `array<int>`. Each routine is a method whose postcondition ties the new state to the pure step, for example `Snap() == Step(old(Snap()))`.
- `RunToEnd` is the update loop. It is proved to stop with the keys sorted and permuted.

**The Poisson-disc sampler (`Possion.h`).**

- Module `PoissonGeometry` holds the real-number facts behind the spatial grid:
  - cell indices and grid dimensions;
  - one point per cell;
  - why a 5x5 block of cells finds every near point;
  - how many cells there are.
- Module `Poisson` is the sampler itself:
  - a 2-D `array2<int>` grid of point indices, with -1 for an empty cell;
  - the point list and the active frontier as sequences;
  - the bounds check;
  - the clipped 5x5 neighbour scan as nested loops;
  - accept/insert;
  - removal from the frontier.
- The random draws are parameters:
  - the seed point;
  - `pick`, the frontier index drawn in each round, reduced modulo the frontier size;
  - `candidate`, the candidate proposed around a frontier point in a given round and attempt.
- The cell side is a parameter with `2c^2 <= r^2` and `r <= 2c`. The source uses `c = r / sqrt 2`.
- The sampler is proved to end and to return these points:
  - the seed first;
  - all inside the window;
  - pairwise at least `radius` apart;
  - one per cell, and so no more than there are cells.

Two points about the code itself:

- **Stack depth.** The RECURSE branch (quickSort.h:96-118) defers one side and continues with the other. The deferred side is the smaller one, or the lower one when it is larger by exactly one key, because the test at line 96 is `i - 1 - left > right - i`. Either way a deferred range is at most half of its frame. Deferred ranges can pile up, though, so the stack is not logarithmic in depth: it can grow linearly. The model proves the bound the code has: a pending range has at least two keys, so `2 * |stack| <= n` (`StackBound`), and each pushed range is at most half of its frame (`RecursePushesAtMostHalf`).
- **The exchange.** The calls `swap(lines[i], lines[j])` and `swap(lines[i], lines[pivotIndex])` at quickSort.h:82 and 88 match the reference `swap(Line&, Line&)` (lines 40-44) and the empty by-value `swap(Line, Line)` (lines 47-49) equally well. The model uses only the real exchange of lines 40-44.

## Model

| member | source | states |
|---|---|---|
| QuickSortSpec.Initial | quickSort.h:22-27 | the initial globals hold the given keys and an empty stack, and are idle: updateSort() leaves them unchanged |
| QuickSortSpec.QuickSort | quickSort.h:61-73 | keys and stack are untouched; with l >= r only sorting is cleared; with l < r a PARTITION frame opens on [l, r] with the pivot at r and an empty scan that already satisfies the scan invariant |
| QuickSortSpec.Begin | quickSort.h:159-163 | keys kept, stack emptied; the run is active exactly when there are at least two keys, with the frame [0, n-1] in PARTITION |
| QuickSortSpec.PopOrStop | quickSort.h:99-118 | keys kept; an empty stack ends the run; while running with every stacked range of two or more keys, the top range becomes the open frame, so the pending ranges are exactly the old stack |
| QuickSortSpec.RecurseStep | quickSort.h:95-120 | keys kept; whenever the run goes on, it goes on in a fresh PARTITION frame of at least two keys with i = left-1, j = left and the pivot at right |
| QuickSortSpec.Swapped | quickSort.h:40-44 | the two keys trade places, the length is kept, and the multiset of keys is unchanged |
| QuickSortSpec.Step | quickSort.h:75-121 | one updateSort(): keys are only permuted; when not sorting nothing changes; a scan comparison advances j by exactly one and keeps the frame, pivot and stack; the pivot placement increments i and enters SWAP; SWAP only moves to RECURSE; RECURSE leaves the keys alone |
| QuickSortSpec.ScanAdvance | quickSort.h:79-85 | one comparison keeps the scan invariant: keys in [left, i] are at most the pivot, keys in (i, j) are above it, and left-1 <= i < j <= right |
| QuickSortSpec.PlacePivot | quickSort.h:86-90 | placing the pivot at i+1 leaves every key of [left, i+1) at most it and every key of (i+1, right] above it |
| QuickSortSpec.RecurseIsPushThenPop | quickSort.h:95-120 | a RECURSE decision equals pushing both nontrivial sides (the deferred one first) and then popping the top, or stopping when nothing is pending |
| QuickSortSpec.RecursePushesAtMostHalf | quickSort.h:96-109 | RECURSE pushes at most one range, on top of the unchanged stack; that range has at least two keys and is at most half of [left, right] |
| QuickSortSpec.SumSizesAtLeast | quickSort.h:97 | ranges of at least two keys sum to at least twice their number |
| QuickSortSpec.SwapInLast | quickSort.h:82 | the scan exchanges keys inside the open frame only, so every block already in place stays in place |
| QuickSortSpec.SplitSeparated | quickSort.h:95-120 | a partitioned frame splits into the three blocks below, at and above the pivot, each in place |
| QuickSortSpec.SplitKeepsSortedOutside | quickSort.h:95-120 | replacing the open frame by its nontrivial sides keeps all pending ranges disjoint, in place, and no larger in total |
| QuickSortSpec.PopKeepsInv | quickSort.h:99-106 | popping the top range either opens a frame on it or ends the run with nothing pending, and the invariant holds |
| QuickSortSpec.BeginInv | quickSort.h:159-163 | clearing the stack, setting sorting and calling quicksort(0, n-1) yields a snapshot satisfying the invariant |
| QuickSortSpec.ScanSwapKeepsFrame | quickSort.h:80-84 | an exchanging comparison keeps the frame invariant |
| QuickSortSpec.ScanPassKeepsFrame | quickSort.h:84 | a non-exchanging comparison keeps the frame invariant |
| QuickSortSpec.PlaceKeepsFrame | quickSort.h:86-90 | the pivot placement keeps the frame invariant and leads to SWAP |
| QuickSortSpec.RecurseStepKeepsInv | quickSort.h:95-120 | a RECURSE decision keeps the invariant and strictly shrinks the total size of the pending ranges |
| QuickSortSpec.StepKeepsInv | quickSort.h:75-121 | every step from a snapshot satisfying the invariant stays in bounds and reaches a snapshot satisfying it |
| QuickSortSpec.FinishedSorted | quickSort.h:105 | once sorting is false under the invariant, the keys are non-decreasing |
| QuickSortSpec.StackBound | quickSort.h:27 | under the invariant the stack holds at most n/2 ranges |
| QuickSortSpec.StepProgresses | quickSort.h:75-121 | each step of a running automaton lowers (unsorted total, phase rank, comparisons left) lexicographically, so the run ends |
| QuickSortSpec.Run | quickSort.h:168-171 | stepping until sorting is false ends, in a snapshot that keeps the invariant, with the keys sorted and a permutation of the start |
| QuickSortSpec.RunThreeKeys | quickSort.h:159-171 | starting on [3, 1, 2], the run ends with [1, 2, 3] and an empty stack |
| QuickSortSpec.BeginOneKey | quickSort.h:61-73 | with one key, quicksort(0, 0) clears sorting at once and later steps change nothing |
| QuickSortMachine.SortAutomaton.constructor | quickSort.h:22-27 | the globals start as declared, over the given keys |
| QuickSortMachine.SortAutomaton.Exchange | quickSort.h:40-44 | the array afterwards is the pure exchange of the old array |
| QuickSortMachine.SortAutomaton.QuickSort | quickSort.h:61-73 | with l < r the frame is [l, r] with pivot r, i = l-1, j = l and state PARTITION; otherwise only sorting is cleared |
| QuickSortMachine.SortAutomaton.PopOrFinish | quickSort.h:99-106 | pops the top range and opens a frame on it, or clears sorting when the stack is empty |
| QuickSortMachine.SortAutomaton.UpdateSort | quickSort.h:75-121 | the new state is exactly Step of the old state |
| QuickSortMachine.SortAutomaton.PartitionTick | quickSort.h:78-91 | the new state is exactly Step of the old state in PARTITION |
| QuickSortMachine.SortAutomaton.CompareTick | quickSort.h:79-85 | a key at most the pivot is exchanged to position i+1 and i, j both advance; otherwise only j advances |
| QuickSortMachine.SortAutomaton.PlaceTick | quickSort.h:86-90 | the pivot is exchanged to i+1, i is incremented and the state becomes SWAP |
| QuickSortMachine.SortAutomaton.RecurseTick | quickSort.h:95-120 | the new state is exactly RecurseStep of the old state |
| QuickSortMachine.SortAutomaton.Start | quickSort.h:159-163 | when idle: empty stack, sorting set, frame opened over all keys; otherwise nothing changes |
| QuickSortMachine.SortAutomaton.RunToEnd | quickSort.h:168-171 | calling UpdateSort until sorting is false ends, with the keys sorted and a permutation of the old keys |
| QuickSortMachine.SortKeys | quickSort.h:159-171 | one whole session over any keys returns them sorted and permuted |
| PoissonGeometry.Cell | Possion.h:56-57 | the cell index is the floor of v / c, and is non-negative for a non-negative coordinate |
| PoissonGeometry.Dist2 | Possion.h:68-70 | the squared distance is never negative |
| Poisson.InWindow | Possion.h:52 | a point can be in the window only when the window is non-empty |
| PoissonGeometry.Ceil | Possion.h:26-27 | the result is the least integer at or above x |
| PoissonGeometry.CellInGrid | Possion.h:26-27 | a coordinate in [0, w) has a cell index in [0, ceil(w / c)), so every cell computed at lines 37-38 and 56-57 exists |
| PoissonGeometry.NearCells | Possion.h:60-61 | two coordinates closer than r <= 2c have cell indices at most two apart |
| PoissonGeometry.NearInBlock | Possion.h:60-77 | a point closer than r to the candidate lies in the 5x5 block of cells around the candidate's cell |
| PoissonGeometry.SameCellNear | Possion.h:37-38 | two coordinates in the same cell are less than one cell side apart |
| PoissonGeometry.SameCellTooClose | Possion.h:25 | with 2c^2 <= r^2, two points in one cell are closer than r |
| PoissonGeometry.InAllCells | Possion.h:28 | the set of grid cells holds exactly the pairs with 0 <= x < w and 0 <= y < h |
| PoissonGeometry.AllCellsCount | Possion.h:28 | a w x h grid has w*h cells |
| Poisson.NewGrid | Possion.h:25-28 | a fresh grid of ceil(w/c) x ceil(h/c) cells, every one -1 |
| Poisson.Seed | Possion.h:34-39 | the seed is the only point and the whole frontier, is recorded at index 0 in its own cell, and every other cell stays -1 |
| Poisson.ScanNeighbours | Possion.h:56-77 | the nested scan answers valid exactly when no recorded point in the in-bounds cells of the 5x5 block is closer than radius |
| Poisson.BlockClearIffFar | Possion.h:56-79 | on a grid that records the points, a clear 5x5 block holds exactly when the candidate is at least radius from every point |
| Poisson.FarIfClear | Possion.h:60-77 | a recorded point closer than radius lies in the scanned block, so a clear block rules it out |
| Poisson.FarCellEmpty | Possion.h:83 | the cell of a candidate at least radius from every point is -1, so the write at line 83 overwrites no point |
| Poisson.ApartAppend | Possion.h:81 | appending a candidate that is far from every point keeps all pairs at least radius apart |
| Poisson.Accept | Possion.h:79-86 | the same point is appended to points and active; its index is written into its own empty cell; no other cell changes; the grid still records exactly the points |
| Poisson.Attempts | Possion.h:44-88 | out-of-window candidates are skipped; the first acceptable candidate is accepted and every earlier one was not; if none of the k is acceptable, points, active and grid are unchanged |
| Poisson.Erase | Possion.h:89-92 | exactly element idx leaves the frontier: the elements before it stay, the ones after it shift down by one, and one copy leaves the multiset |
| Poisson.DistinctCells | Possion.h:79-83 | points pairwise at least radius apart lie in distinct cells |
| Poisson.SeedFree | Possion.h:39 | after the seed is recorded, the other w*h - 1 cells are free |
| Poisson.PoissonDiscSampling | Possion.h:19-96 | the loop ends; the result starts with the seed; every point has active == true and lies in the window; points are pairwise at least radius apart, one per cell, and at most ceil(w/c) * ceil(h/c) |

## Left out

- The SFML code is not modelled: window, event polling, `drawLines`, colours, vertices, clocks and both `main` functions. It is rendering and I/O. The update loop's 50 ms pacing is not modelled either; `RunToEnd` calls the step back to back.
- `generateLines` (quickSort.h:51-59) is not modelled. It draws random floats, and it writes `lines[k]` after only `reserve`, which is undefined behaviour. The keys are an arbitrary input sequence instead.
- `Begin`/`Start` open the frame over all keys, `quicksort(0, n - 1)` with n the number of keys. The source hard-codes `NUM_LINES - 1` (quickSort.h:163).
- `angleToRadian` and the trigonometry in `Line`'s constructor are display-only float numerics and are not modelled.
- The keys are `int`, which stands for the float `angle` of each `Line`. The sampler's coordinates are `real`. IEEE rounding, NaN and infinity are not modelled.
- The by-value `swap(Line, Line)` at quickSort.h:47-49 is not modelled. It does nothing. The model does not capture the overload ambiguity of the calls at lines 82 and 88.
- Line 22 of quickSort.h uses `Line` before its declaration at line 29. The model takes the intended order.
- RNG and candidate synthesis (Possion.h:20-23, 34, 42, 47-50) are abstracted:
  - the seed is the parameter `(seedX, seedY)`, required to be in the window;
  - the frontier index is `pick(round) % |active|`;
  - the candidates are `candidate(parent, round, attempt)`.
  None of the distance and angle distortion (`angle*1.61803`, `*M_PI`) is modelled.
- `sqrt` is not modelled. The cell side is a parameter with `2c^2 <= r^2` and `r <= 2c`; `c = r / sqrt 2` meets both exactly in real arithmetic.
- `Point& p` aliasing and the write `p.active = false` (Possion.h:43, 90) are not modelled. It changes only the frontier element that is erased next, so `points` keeps `active == true`. The model erases the element without writing it.
- StackBound: proves `2 * |stack| <= n`, not a logarithmic bound, because deferring the side of at most half and continuing with the other, as the code does, does not keep the stack logarithmic.
- PoissonDiscSampling: requires `radius > 0` (through `GoodCells`) and a non-empty window (through the seed being `InWindow`). The source checks neither. With `radius <= 0` the cell side at Possion.h:25 is zero or negative and the divisions at lines 26-27 and 37-38 go wrong. With an empty window the grid has no cells, and the write at line 39 is out of bounds. These degenerate inputs are not modelled.
