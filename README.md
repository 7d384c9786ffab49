# Range minimum queries: four structures, one contract

This project models the four interchangeable range-minimum-query (RMQ)
structures of the repository: `Naive`, `SRD` (square-root
decomposition), `SegmentTree` and `SparseTable`. Each structure is built
from a non-empty list. `update(index, value)` assigns one element, and
`query(left, right)` returns the minimum of the inclusive range
`[left, right]`.

The shared contract lives in `rmq_spec.dfy` (module `RangeMinSpec`):

- `RangeMin(s, l, r)` is the minimum of `s[l..r]`.
- `Ext` is a value or +infinity, which stands in for the source's `float("inf")`.
- The validation every structure performs before it touches anything:
  - construction rejects the empty list with ValueError;
  - `update` rejects an index outside `[0, n)` with IndexError;
  - `query` checks both bounds (IndexError) before their order (ValueError).

Python's `min(a, b)` returns `a` unless `b < a`; `ExtMin` does the same.

Each structure is a class:

- `var arr: seq<int>` is the list.
- The auxiliary buffers are arrays: the segment tree's `4n` buffer, the SRD `feed`, and the sparse table's `lt` and `st`.
- `Valid()` ties the buffers to `arr`.
- Methods carry `modifies` clauses.
- A `Create` factory models the ValueError path of construction.

The methods are:

- `naive.dfy`: the linear scan.
- `segment_tree.dfy`:
  - the post-order recursive build over the heap layout (children at `2*node+1` and `2*node+2`);
  - the path update;
  - the recursive range decomposition `QueryRec`, a pure function over the buffer.
- `srd.dfy`:
  - the block layout (`blockSize = ceil(sqrt n)`, `ceil(n / blockSize)` blocks);
  - the folding construction;
  - both update variants;
  - the three-phase query loop.
  - The constructor's fold loop, the block rescan and the whole-block phase of the query are written as the helper methods `FoldAll`, `RescanBlock` and `WholeBlocks`, which the class calls in the source's order.
- `sparse_table.dfy`:
  - the `lt` recurrence loop;
  - the nested build loops (`BuildTable`);
  - the rebuilding update;
  - the two-window query.
- `powers.dfy` holds `2^j`, floor and ceiling of `log2`, and their relations.

Two places where the code does not do what its own comments and loop
bounds promise are modelled as written and corrected (see "## Findings"):

- The SRD update folds the new value into the old block minimum, while its
  comment (`srd.py:70`, "Recompute minimum for the affected block") and its
  docstring ("refresh its block minimum") promise a recomputation.
  `SRD.UpdateFold` models the fold and `SRD.Update` the rescan.
- The sparse table allocates `ceil(log2 n)` columns, but its build loop
  (`sparse_table.py:62`) writes columns `0 .. floor(log2 n)`.
  `SparseTable.CreateAsWritten` models the written width, and the
  constructor uses `lt[n] + 1` columns.

Facts that need no member:

- `query(i, i) == array[i]` holds by the definition of `RangeMin`.
- No `Query` method has a `modifies` clause, so none of them changes the structure.
- Every loop and recursion is proved to terminate.

## Model

| member | source | states |
|---|---|---|
| RangeMinSpec.ExtMin | src/approaches/srd.py:46 | Python's two-argument `min` on values and +infinity: the result is one of the arguments, finite iff one of them is, and the smaller one when both are finite |
| RangeMinSpec.RangeMinIsMinimum | src/approaches/naive.py:74-78 | the minimum of a range is at most every element of the range and equals one of them |
| RangeMinSpec.RangeMinUnique | src/approaches/naive.py:74-78 | any value that is at most every element of the range and equals one of them is the range minimum |
| RangeMinSpec.RangeMinCover | src/approaches/sparse_table.py:117-118 | two sub-ranges that overlap or touch and together cover [l, r] combine with min to the minimum of [l, r] |
| RangeMinSpec.RangeMinAgree | src/approaches/naive.py:75-77 | the range minimum depends only on the elements inside the range |
| RangeMinSpec.RangeMinUnaffected | src/test_approach.py:159-165 | assigning an index outside [l, r] leaves the minimum of [l, r] unchanged |
| RangeMinSpec.CheckInput | src/approaches/naive.py:27-28 | construction passes iff the list is non-empty and otherwise fails with ValueError |
| RangeMinSpec.CheckIndex | src/approaches/naive.py:48-49 | update passes iff 0 <= index < n and otherwise fails with IndexError |
| RangeMinSpec.CheckRange | src/approaches/naive.py:69-72 | query passes iff 0 <= left <= right < n; IndexError iff a bound is out of range (also when left > right); ValueError iff both are in range and left > right |
| PowersOfTwo.Pow2 | src/approaches/sparse_table.py:62-67 | `1 << j` is positive, so every window of the table is non-empty |
| PowersOfTwo.FloorLog2 | src/approaches/sparse_table.py:42-46 | the halving recurrence of `lt` gives the exponent of the largest power of two at most k: 2^lt[k] <= k < 2^(lt[k]+1) for k >= 1 |
| PowersOfTwo.CeilLog2 | src/approaches/sparse_table.py:49 | ceil(log2 n) is the least c with n <= 2^c: n <= 2^c, and 2^(c-1) < n once n >= 2 |
| PowersOfTwo.Pow2IsPow2 | src/approaches/sparse_table.py:62 | every 2^j satisfies the independent, halving definition of a power of two |
| PowersOfTwo.Pow2Mono | src/approaches/sparse_table.py:62 | 2^j is monotone in j |
| PowersOfTwo.Pow2Lt | src/approaches/sparse_table.py:62 | a smaller power of two has a smaller exponent |
| PowersOfTwo.Pow2Below | src/approaches/sparse_table.py:62 | the build's level condition 2^j <= n holds exactly for j <= floor(log2 n) |
| PowersOfTwo.FloorLog2Mono | src/approaches/sparse_table.py:117 | a shorter range has a floor-log at most that of a longer one, so lt[len] <= lt[n] |
| PowersOfTwo.IsPow2Exact | src/approaches/sparse_table.py:49-50 | n is a power of two iff 2^floor(log2 n) == n |
| PowersOfTwo.Log2OfPow2 | src/approaches/sparse_table.py:42-46 | floor(log2 2^c) == c |
| PowersOfTwo.Bracket | src/approaches/sparse_table.py:49 | exponents bracketing n from below and, minimally, from above are at most one apart |
| PowersOfTwo.CeilNearFloor | src/approaches/sparse_table.py:49 | floor(log2 n) <= ceil(log2 n) <= floor(log2 n) + 1 |
| PowersOfTwo.CeilVsFloor | src/approaches/sparse_table.py:49-50 | ceil(log2 n) == floor(log2 n) iff n is a power of two; otherwise it is floor(log2 n) + 1 |
| NaiveRmq.Naive.constructor | src/approaches/naive.py:27-29 | a non-empty list becomes the structure's list |
| NaiveRmq.Naive.Create | src/approaches/naive.py:25-29 | the empty list is a ValueError; any other list gives a valid structure holding it |
| NaiveRmq.Naive.Update | src/approaches/naive.py:44-50 | in range: arr becomes old(arr)[index := v]; out of range: IndexError and arr unchanged |
| NaiveRmq.Naive.Query | src/approaches/naive.py:67-78 | the validation error, or the linear scan's result, which equals RangeMin(arr, left, right) |
| SegmentTreeRmq.Mid | src/approaches/segment_tree.py:55 | `(start + end) // 2` splits a range of two or more elements into two non-empty halves, the left one at most one element longer |
| SegmentTreeRmq.DescAtLeast | src/approaches/segment_tree.py:57-59 | a node in the subtree of c has an index at least c |
| SegmentTreeRmq.ChildDesc | src/approaches/segment_tree.py:57-59 | 2c+1 and 2c+2 lie in the subtree of c |
| SegmentTreeRmq.DescTrans | src/approaches/segment_tree.py:57-59 | a node below a child of c is below c |
| SegmentTreeRmq.SiblingsDisjoint | src/approaches/segment_tree.py:57-59 | the subtrees of 2p+1 and 2p+2 share no node, so building one child never disturbs the other |
| SegmentTreeRmq.CeilPow2 | src/approaches/segment_tree.py:38-39 | the least power of two at least n is at most 2n - 2 for n >= 2 |
| SegmentTreeRmq.FitsBelow | src/approaches/segment_tree.py:39-59 | every node the recursion reaches over a range of at most q elements stays below 4n |
| SegmentTreeRmq.RootFits | src/approaches/segment_tree.py:38-41 | every node reached from (0, 0, n-1) has an index below the 4n allocation |
| SegmentTreeRmq.TreeOkFrame | src/approaches/segment_tree.py:52-61 | the node invariant of a subtree depends only on that subtree's nodes and its range's elements |
| SegmentTreeRmq.PathInSubtree | src/approaches/segment_tree.py:92-96 | every node on the update path from `node` lies in the subtree of `node` |
| SegmentTreeRmq.ParentRepair | src/approaches/segment_tree.py:61 | when both children hold their range minima, storing their min at the parent makes the whole subtree correct |
| SegmentTreeRmq.SiblingKept | src/approaches/segment_tree.py:92-96 | the child the update does not descend into keeps its invariant |
| SegmentTreeRmq.UpdateStep | src/approaches/segment_tree.py:90-98 | after the descent, the parent write repairs the node and differs from the old tree only on the path |
| SegmentTreeRmq.QueryRec | src/approaches/segment_tree.py:124-144 | +infinity for a node disjoint from [left, right]; tree[node] for a node inside it; otherwise the minimum of the part of the node's range inside [left, right] |
| SegmentTreeRmq.SegmentTree.constructor | src/approaches/segment_tree.py:36-41 | allocates 4n entries of +infinity and builds a valid tree of the list |
| SegmentTreeRmq.SegmentTree.Create | src/approaches/segment_tree.py:31-41 | the empty list is a ValueError; any other list gives a valid tree of it |
| SegmentTreeRmq.SegmentTree.ConstructRec | src/approaches/segment_tree.py:43-61 | every node of the subtree holds the minimum of its range (a leaf its element); nodes outside the subtree are untouched |
| SegmentTreeRmq.SegmentTree.Update | src/approaches/segment_tree.py:75-82 | in range: arr becomes old(arr)[index := v], the tree stays valid, and only nodes on the root-to-leaf path change; out of range: IndexError, nothing changes |
| SegmentTreeRmq.SegmentTree.UpdateRec | src/approaches/segment_tree.py:84-98 | assigns the element, keeps the subtree's invariant, and writes only the nodes on the path to the leaf |
| SegmentTreeRmq.SegmentTree.Query | src/approaches/segment_tree.py:115-122 | the validation error, or RangeMin(arr, left, right) |
| SquareRootDecomposition.CeilSqrt | src/approaches/srd.py:40 | the block size r satisfies (r-1)^2 < n <= r^2 |
| SquareRootDecomposition.NumBlocks | src/approaches/srd.py:41 | `ceil(n / block_size)` is the least count of blocks that reaches past the last index: n <= c * bs and (c - 1) * bs < n |
| SquareRootDecomposition.LayoutHolds | src/approaches/srd.py:40-41 | ceil(n / bs) blocks of size bs cover [0, n), and every block starts inside the list |
| SquareRootDecomposition.BlockOf | src/approaches/srd.py:45 | index i lies in block i // bs and in no other block |
| SquareRootDecomposition.BlockIndexInRange | src/approaches/srd.py:45 | index // block_size is a valid feed index for every list index |
| SquareRootDecomposition.NextBlockAligned | src/approaches/srd.py:105-107 | from a block boundary, advancing by a block reaches the next boundary, and the block read is the one starting there |
| SquareRootDecomposition.ExactIsWeak | src/approaches/srd.py:44-46 | exact block minima are below every element of their block |
| SquareRootDecomposition.PartialBlockMinStep | src/approaches/srd.py:44-46 | folding element i changes only the entry of block i // bs, which becomes the min of its elements up to i |
| SquareRootDecomposition.FoldFeed | src/approaches/srd.py:71-72 | the folding update changes only the entry of block i // bs, which ends up at most both its old value and the new value |
| SquareRootDecomposition.RescanFeed | src/approaches/srd.py:71-72 | the rescanning update changes only the entry of block i // bs, whose block contains i, and that entry is finite, at most every element of the block and equal to one of them |
| SquareRootDecomposition.FoldKeepsWeak | src/approaches/srd.py:68-72 | after a folding update every entry is still at most every element of its block |
| SquareRootDecomposition.RescanKeepsWeak | src/approaches/srd.py:68-72 | the rescanning update keeps every entry at most every element of its block |
| SquareRootDecomposition.RescanKeepsExact | src/approaches/srd.py:68-72 | the rescanning update keeps every entry the exact minimum of its block |
| SquareRootDecomposition.ScanHead | src/approaches/srd.py:100-112 | the single-element phase and what follows it never raise the running minimum, and always return a finite value at most arr[right] |
| SquareRootDecomposition.ScanBlocks | src/approaches/srd.py:105-112 | the whole-block phase and the tail never raise the running minimum and return a finite value at most arr[right], which is always read from the list and never through feed |
| SquareRootDecomposition.ScanTail | src/approaches/srd.py:110-112 | the tail loop never raises the running minimum, and when it reads an element the result is finite and at most arr[right] |
| SquareRootDecomposition.Scan | src/approaches/srd.py:96-114 | the query's value is finite and at most arr[right] for every feed; ScanWeak and ScanExact relate it to RangeMin |
| SquareRootDecomposition.ScanBlocksStep | src/approaches/srd.py:105-107 | one whole-block step reads a valid feed index |
| SquareRootDecomposition.ScanTailExact | src/approaches/srd.py:110-112 | the tail loop folds exactly the minimum of the remaining elements |
| SquareRootDecomposition.ScanBlocksExact | src/approaches/srd.py:105-112 | from a block boundary, the whole-block and tail loops fold exactly the range minimum when the feed is exact |
| SquareRootDecomposition.ScanHeadExact | src/approaches/srd.py:100-112 | the three loops fold exactly the range minimum when the feed is exact |
| SquareRootDecomposition.ScanExact | src/approaches/srd.py:96-114 | with exact block minima the query returns RangeMin(arr, left, right) |
| SquareRootDecomposition.ScanBlocksWeak | src/approaches/srd.py:105-112 | with the weak invariant, the whole-block and tail loops give a finite value at most every element of the range |
| SquareRootDecomposition.ScanHeadWeak | src/approaches/srd.py:100-112 | with the weak invariant, the three loops give a finite value at most every element of the range |
| SquareRootDecomposition.ScanWeak | src/approaches/srd.py:96-114 | with the weak invariant, the query returns a finite value at most RangeMin(arr, left, right) |
| SquareRootDecomposition.FoldCounterexample | src/approaches/srd.py:72 | from [5, 3, 8, 9, 7], update(1, 10) leaves feed [3, 7], and query(0, 4) returns 3 while the minimum is 5 |
| SquareRootDecomposition.FoldAll | src/approaches/srd.py:44-46 | folding every element into its +infinity-initialised block entry makes every entry the exact block minimum |
| SquareRootDecomposition.RescanBlock | src/approaches/srd.py:71-72 | the rescan of block [lo, hi] returns its minimum |
| SquareRootDecomposition.WholeBlocks | src/approaches/srd.py:105-107 | the whole-block loop computes the whole-block phase of the scan and stops where the tail starts |
| SquareRootDecomposition.SRD.constructor | src/approaches/srd.py:38-46 | block size ceil(sqrt n), ceil(n / bs) entries, each the exact minimum of its block |
| SquareRootDecomposition.SRD.Create | src/approaches/srd.py:33-46 | the empty list is a ValueError; any other list gives a structure with exact block minima |
| SquareRootDecomposition.SRD.UpdateFold | src/approaches/srd.py:64-72 | in range: arr becomes old(arr)[index := v], and the block entry becomes min(old entry, v) with no other entry changed; out of range: IndexError, nothing changes |
| SquareRootDecomposition.SRD.Update | src/approaches/srd.py:64-72 | as UpdateFold, but the block entry becomes the minimum of the block's new elements; exact block minima stay exact |
| SquareRootDecomposition.SRD.Query | src/approaches/srd.py:91-114 | the validation error, or the three-phase scan's value: at most RangeMin(arr, left, right), and equal to it when the block minima are exact |
| SparseTableRmq.TableOkWiden | src/approaches/sparse_table.py:62 | columns beyond floor(log2 n) hold no window that fits, so the build is complete once it stops |
| SparseTableRmq.FillLevel | src/approaches/sparse_table.py:63-69 | one pass of the inner loop makes every window of 2^j elements at level j hold its minimum and writes no other column |
| SparseTableRmq.BuildTable | src/approaches/sparse_table.py:54-70 | the build succeeds iff the table has more than floor(log2 n) columns, and then every window of 2^j elements that fits holds its minimum; otherwise IndexError |
| SparseTableRmq.TableEntry | src/approaches/sparse_table.py:118 | a cell of a built table holds the minimum of its window |
| SparseTableRmq.WindowsCover | src/approaches/sparse_table.py:118 | two windows of p elements, from left and to right, lie inside [left, right] and combine to its minimum when p <= len < 2p |
| SparseTableRmq.TwoWindows | src/approaches/sparse_table.py:117-118 | with j = floor(log2 len), the windows [left, left+2^j-1] and [right-2^j+1, right] lie inside [left, right], overlap or touch, exist in the table, and their min is RangeMin(arr, left, right) |
| SparseTableRmq.QueryCells | src/approaches/sparse_table.py:117-118 | in a full table, the two cells the query reads at column lt[len] exist and their min is RangeMin(arr, left, right) |
| SparseTableRmq.SparseTable.constructor | src/approaches/sparse_table.py:40-52 | lt[k] == floor(log2 k) for k <= n, and a table of lt[n] + 1 columns built for the list |
| SparseTableRmq.SparseTable.Create | src/approaches/sparse_table.py:37-52 | with the corrected width: the empty list is a ValueError and every other list gives a valid table |
| SparseTableRmq.SparseTable.CreateAsWritten | src/approaches/sparse_table.py:37-52 | with ceil(log2 n) columns: the empty list is a ValueError; otherwise construction fails with IndexError exactly when n is a power of two, and else gives a valid table whose width is exactly ceil(log2 n) |
| SparseTableRmq.SparseTable.Update | src/approaches/sparse_table.py:88-92 | in range: arr becomes old(arr)[index := v] and the rebuilt table is valid for the new list; out of range: IndexError, nothing changes |
| SparseTableRmq.SparseTable.Query | src/approaches/sparse_table.py:112-118 | the validation error, or RangeMin(arr, left, right) |

## Left out

- TypeError paths: the `isinstance` checks on the list, the index, the bounds and the new value. Dafny's static types make them vacuous.
- Floating-point values: elements are `int`. There is no NaN ordering and no float rounding, and `float("inf")` is the `Inf` constructor of `Ext`.
- `sqrt`, `log2` and `ceil` in floating point: the block size is the exact integer ceil-sqrt, and the table width is the exact integer ceil-log2. For very large n the float computation could round differently.
- Aliasing: the constructors store the caller's list without copying. Here `arr` is a sequence owned by the object, so a caller's later change to its own list is not modelled.
- Complexity claims in the docstrings are not modelled, beyond the 4n node-index bound of the segment tree.
- Benchmarking, timing, memory measurement, dataset generation and plotting (`src/benchmark.py`, `src/plot_results.py`, `src/utils/`) are not part of this model.
- SquareRootDecomposition.SRD.Query: it promises RangeMin only when every block minimum is exact. The constructor and `SRD.Update` keep that state, but the folding update the source uses does not; under the invariant the fold keeps, only the lower bound holds.
- SparseTableRmq.SparseTable.CreateAsWritten: it returns IndexError instead of leaving a partly built table. The exception escapes the source's `__init__`, so that table is never observable.

## Findings

| source | as written | input that shows it | evidently intended | confidence | as-written member | corrected member |
|---|---|---|---|---|---|---|
| src/approaches/srd.py:72 | the update stores `min(feed[block], new_value)`, so a block minimum can never go up | [5, 3, 8, 9, 7]: update(1, 10) leaves feed [3, 7], then query(0, 4) returns 3 while the minimum is 5 | the block's minimum recomputed from its elements after the assignment | high; not executed | SquareRootDecomposition.SRD.UpdateFold, SquareRootDecomposition.FoldCounterexample | SquareRootDecomposition.SRD.Update, SquareRootDecomposition.RescanKeepsExact |
| src/approaches/sparse_table.py:49-50 | the table gets ceil(log2 n) columns, while the build writes every column j with 2^j <= n, up to floor(log2 n) | [5, 3] (n = 2): one column, and the build writes column 1; [5] (n = 1): no column, and the build writes column 0; both raise IndexError from the constructor | floor(log2 n) + 1 = lt[n] + 1 columns | high; not executed | SparseTableRmq.SparseTable.CreateAsWritten, PowersOfTwo.CeilVsFloor | SparseTableRmq.SparseTable.constructor, SparseTableRmq.BuildTable |
