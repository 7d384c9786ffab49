/** Square-root decomposition: the list is cut into blocks of
    blockSize = ceil(sqrt(n)) elements, `feed` keeps one minimum per block,
    and a query scans single elements up to a block boundary, then whole
    blocks through `feed`, then the remaining single elements. */
module SquareRootDecomposition {
  import opened RangeMinSpec

  // ---------------------------------------------------------------------
  // Integer arithmetic for the block layout

  lemma DivFacts(i: int, bs: int)
    requires 0 <= i && 1 <= bs
    ensures 0 <= i / bs && (i / bs) * bs <= i < (i / bs) * bs + bs
    ensures i % bs == 0 ==> (i / bs) * bs == i
  {
  }

  lemma MulMono(a: int, b: int, c: int)
    requires 0 <= c
    ensures a <= b ==> a * c <= b * c
    ensures (a + 1) * c == a * c + c
  {
  }

  /** ceil(sqrt(n)): the least r with n <= r * r. */
  function CeilSqrt(n: int): (r: int)
    requires n >= 1
    ensures r >= 1 && (r - 1) * (r - 1) < n <= r * r
  {
    CeilSqrtFrom(n, 1)
  }

  function CeilSqrtFrom(n: int, k: int): (r: int)
    requires 1 <= k && (k - 1) * (k - 1) < n
    ensures k <= r && (r - 1) * (r - 1) < n <= r * r
    decreases n - k
  {
    if n <= k * k then k
    else
      MulMono(1, k, k);
      CeilSqrtFrom(n, k + 1)
  }

  /** ceil(n / bs): the least number of blocks of size bs that reach past
      the last of n indices. */
  function NumBlocks(n: int, bs: int): (c: int)
    requires 1 <= bs
    ensures 0 <= n ==> 0 <= c && n <= c * bs && (c - 1) * bs < n
  {
    var c := (n + bs - 1) / bs;
    if n < 0 then c
    else
      DivFacts(n + bs - 1, bs);
      MulMono(c - 1, c, bs);
      c
  }

  function BlockStart(bs: int, b: int): int
  {
    b * bs
  }

  /** The last index of block b; the final block may be shorter. */
  function BlockEnd(n: int, bs: int, b: int): int
  {
    Min(BlockStart(bs, b) + bs, n) - 1
  }

  /** `count` blocks of size bs reach past the last index. */
  predicate Covers(n: int, bs: int, count: int)
  {
    1 <= bs && n <= count * bs
  }

  /** Blocks of size bs, `count` of them, cover [0, n) and none is empty. */
  ghost predicate Layout(n: int, bs: int, count: int)
  {
    Covers(n, bs, count) &&
    forall b :: 0 <= b < count ==> 0 <= BlockStart(bs, b) < n
  }

  lemma LayoutHolds(n: int, bs: int)
    requires 1 <= n && 1 <= bs
    ensures NumBlocks(n, bs) >= 1 && Layout(n, bs, NumBlocks(n, bs))
  {
    var c := NumBlocks(n, bs);
    DivFacts(n + bs - 1, bs);
    MulMono(c, 0, bs);
    forall b | 0 <= b < c ensures 0 <= BlockStart(bs, b) < n {
      MulMono(b + 1, c, bs);
      MulMono(0, b, bs);
    }
  }

  /** Index i lies in block i / bs, and in no other block. */
  lemma BlockOf(i: int, bs: int, b: int)
    requires 0 <= i && 1 <= bs && 0 <= b
    ensures BlockStart(bs, i / bs) <= i < BlockStart(bs, i / bs) + bs
    ensures BlockStart(bs, b) <= i < BlockStart(bs, b) + bs <==> i / bs == b
  {
    var q := i / bs;
    DivFacts(i, bs);
    if b < q {
      MulMono(b + 1, q, bs);
    } else if q < b {
      MulMono(q + 1, b, bs);
    }
  }

  /** Every index below count * bs has its block among the first count. */
  lemma BlockIndexInRange(i: int, bs: int, count: int)
    requires 0 <= i < count * bs && 1 <= bs
    ensures i / bs < count
  {
    DivFacts(i, bs);
    MulMono(count, i / bs, bs);
  }

  /** The index just after a whole aligned block is aligned again. */
  lemma NextBlockAligned(i: int, bs: int)
    requires 0 <= i && 1 <= bs && i % bs == 0
    ensures (i + bs) % bs == 0 && (i + bs) / bs == i / bs + 1 && BlockStart(bs, i / bs) == i
  {
    DivFacts(i, bs);
    BlockOf(i + bs, bs, i / bs + 1);
    MulMono(i / bs, i / bs, bs);
  }

  // ---------------------------------------------------------------------
  // What `feed` holds

  /** The exact minimum of block b. */
  function BlockMin(s: seq<int>, bs: int, b: int): int
    requires 1 <= bs && 0 <= BlockStart(bs, b) < |s|
  {
    RangeMin(s, BlockStart(bs, b), BlockEnd(|s|, bs, b))
  }

  /** Every entry of feed is the exact minimum of its block: what the
      constructor establishes. */
  ghost predicate ExactFeed(s: seq<int>, feed: seq<Ext>, bs: int)
    requires Layout(|s|, bs, |feed|)
  {
    forall b :: 0 <= b < |feed| ==> feed[b] == Fin(BlockMin(s, bs, b))
  }

  /** Every entry of feed is finite and at most every element of its block:
      all that survives the folding update. */
  ghost predicate WeakFeed(s: seq<int>, feed: seq<Ext>, bs: int)
    requires Layout(|s|, bs, |feed|)
  {
    forall b :: 0 <= b < |feed| ==>
      feed[b].Fin? &&
      forall k :: BlockStart(bs, b) <= k <= BlockEnd(|s|, bs, b) ==> feed[b].v <= s[k]
  }

  lemma ExactIsWeak(s: seq<int>, feed: seq<Ext>, bs: int)
    requires Layout(|s|, bs, |feed|) && ExactFeed(s, feed, bs)
    ensures WeakFeed(s, feed, bs)
  {
    forall b | 0 <= b < |feed|
      ensures forall k :: BlockStart(bs, b) <= k <= BlockEnd(|s|, bs, b) ==> feed[b].v <= s[k]
    {
      RangeMinIsMinimum(s, BlockStart(bs, b), BlockEnd(|s|, bs, b));
    }
  }

  /** The minimum of the elements of block b below index i (+infinity if
      there are none): what the constructor's loop has folded into feed[b]. */
  function PartialBlockMin(s: seq<int>, bs: int, b: int, i: int): Ext
    requires 1 <= bs && 0 <= BlockStart(bs, b) && i <= |s|
  {
    if i <= BlockStart(bs, b) then Inf
    else Fin(RangeMin(s, BlockStart(bs, b), Min(BlockStart(bs, b) + bs, i) - 1))
  }

  lemma PartialBlockMinStep(s: seq<int>, bs: int, b: int, i: int)
    requires 1 <= bs && 0 <= b && 0 <= BlockStart(bs, b) && 0 <= i < |s|
    ensures PartialBlockMin(s, bs, b, i + 1) ==
      if i / bs == b then ExtMin(PartialBlockMin(s, bs, b, i), Fin(s[i]))
      else PartialBlockMin(s, bs, b, i)
  {
    BlockOf(i, bs, b);
  }

  /** The folding update of the source: the new value is folded into the
      old block minimum, which therefore never goes up. */
  function FoldFeed(feed: seq<Ext>, bs: int, i: int, v: int): (f: seq<Ext>)
    requires 1 <= bs && 0 <= i < |feed| * bs
    ensures 0 <= i / bs < |feed| && |f| == |feed|
    ensures forall b :: 0 <= b < |feed| && b != i / bs ==> f[b] == feed[b]
    ensures ExtLe(f[i / bs], feed[i / bs]) && ExtLe(f[i / bs], Fin(v))
  {
    BlockIndexInRange(i, bs, |feed|);
    feed[i / bs := ExtMin(feed[i / bs], Fin(v))]
  }

  /** The corrected update: the block of i is rescanned in the new list. */
  function RescanFeed(s: seq<int>, feed: seq<Ext>, bs: int, i: int): (f: seq<Ext>)
    requires 1 <= bs && 0 <= i < |s| && i < |feed| * bs
    ensures 0 <= i / bs < |feed| && BlockStart(bs, i / bs) <= i && |f| == |feed|
    ensures forall b :: 0 <= b < |feed| && b != i / bs ==> f[b] == feed[b]
    ensures f[i / bs].Fin?
    ensures IsLowerBound(s, BlockStart(bs, i / bs), BlockEnd(|s|, bs, i / bs), f[i / bs].v)
    ensures IsAttained(s, BlockStart(bs, i / bs), BlockEnd(|s|, bs, i / bs), f[i / bs].v)
  {
    BlockIndexInRange(i, bs, |feed|);
    BlockOf(i, bs, 0);
    RangeMinIsMinimum(s, BlockStart(bs, i / bs), BlockEnd(|s|, bs, i / bs));
    feed[i / bs := Fin(BlockMin(s, bs, i / bs))]
  }

  /** Folding keeps the weak invariant. */
  lemma FoldKeepsWeak(s: seq<int>, feed: seq<Ext>, bs: int, i: int, v: int)
    requires Layout(|s|, bs, |feed|) && WeakFeed(s, feed, bs) && 0 <= i < |s|
    ensures 0 <= i / bs < |feed|
    ensures WeakFeed(s[i := v], FoldFeed(feed, bs, i, v), bs)
  {
    BlockIndexInRange(i, bs, |feed|);
    var s', feed' := s[i := v], FoldFeed(feed, bs, i, v);
    forall b | 0 <= b < |feed'|
      ensures feed'[b].Fin? &&
        forall k :: BlockStart(bs, b) <= k <= BlockEnd(|s'|, bs, b) ==> feed'[b].v <= s'[k]
    {
      BlockOf(i, bs, b);
    }
  }

  /** Rescanning keeps the weak invariant. */
  lemma RescanKeepsWeak(s: seq<int>, feed: seq<Ext>, bs: int, i: int, v: int)
    requires Layout(|s|, bs, |feed|) && WeakFeed(s, feed, bs) && 0 <= i < |s|
    ensures 0 <= i / bs < |feed|
    ensures WeakFeed(s[i := v], RescanFeed(s[i := v], feed, bs, i), bs)
  {
    BlockIndexInRange(i, bs, |feed|);
    var s', feed' := s[i := v], RescanFeed(s[i := v], feed, bs, i);
    forall b | 0 <= b < |feed'|
      ensures feed'[b].Fin? &&
        forall k :: BlockStart(bs, b) <= k <= BlockEnd(|s'|, bs, b) ==> feed'[b].v <= s'[k]
    {
      if b == i / bs {
        RangeMinIsMinimum(s', BlockStart(bs, b), BlockEnd(|s'|, bs, b));
      } else {
        BlockOf(i, bs, b);
      }
    }
  }

  /** Rescanning keeps the exact invariant. */
  lemma RescanKeepsExact(s: seq<int>, feed: seq<Ext>, bs: int, i: int, v: int)
    requires Layout(|s|, bs, |feed|) && ExactFeed(s, feed, bs) && 0 <= i < |s|
    ensures 0 <= i / bs < |feed|
    ensures ExactFeed(s[i := v], RescanFeed(s[i := v], feed, bs, i), bs)
  {
    BlockIndexInRange(i, bs, |feed|);
    var s', feed' := s[i := v], RescanFeed(s[i := v], feed, bs, i);
    forall b | 0 <= b < |feed'| ensures feed'[b] == Fin(BlockMin(s', bs, b)) {
      if b != i / bs {
        BlockOf(i, bs, b);
        RangeMinUnaffected(s, i, v, BlockStart(bs, b), BlockEnd(|s|, bs, b));
      }
    }
  }

  // ---------------------------------------------------------------------
  // The three-phase query, step by step

  /** Phase 1: single elements while left is not on a block boundary and
      left < right. */
  function ScanHead(s: seq<int>, feed: seq<Ext>, bs: int, left: int, right: int, acc: Ext): (r: Ext)
    requires Covers(|s|, bs, |feed|) && 0 <= left <= right < |s|
    ensures ExtLe(r, acc) && r.Fin? && r.v <= s[right]
    decreases right - left
  {
    if left < right && left % bs != 0 then
      ScanHead(s, feed, bs, left + 1, right, ExtMin(acc, Fin(s[left])))
    else
      ScanBlocks(s, feed, bs, left, right, acc)
  }

  /** Phase 2: whole blocks through feed while one fits before right. */
  function ScanBlocks(s: seq<int>, feed: seq<Ext>, bs: int, left: int, right: int, acc: Ext): (r: Ext)
    requires Covers(|s|, bs, |feed|) && 0 <= left <= right < |s|
    ensures ExtLe(r, acc) && r.Fin? && r.v <= s[right]
    decreases right - left
  {
    if left + bs <= right then
      BlockIndexInRange(left, bs, |feed|);
      ScanBlocks(s, feed, bs, left + bs, right, ExtMin(acc, feed[left / bs]))
    else
      ScanTail(s, left, right, acc)
  }

  /** One step of phase 2, with the block index in range. */
  lemma ScanBlocksStep(s: seq<int>, feed: seq<Ext>, bs: int, left: int, right: int, acc: Ext)
    requires Covers(|s|, bs, |feed|) && 0 <= left && left + bs <= right < |s|
    ensures 0 <= left / bs < |feed|
    ensures ScanBlocks(s, feed, bs, left, right, acc) ==
      ScanBlocks(s, feed, bs, left + bs, right, ExtMin(acc, feed[left / bs]))
  {
    BlockIndexInRange(left, bs, |feed|);
  }

  /** Phase 3: single elements up to right. */
  function ScanTail(s: seq<int>, left: int, right: int, acc: Ext): (r: Ext)
    requires 0 <= left <= right + 1 && right < |s|
    ensures ExtLe(r, acc)
    ensures left <= right ==> r.Fin? && r.v <= s[right]
    decreases right + 1 - left
  {
    if left <= right then ScanTail(s, left + 1, right, ExtMin(acc, Fin(s[left]))) else acc
  }

  /** What the source's query computes from the list and feed. */
  function Scan(s: seq<int>, feed: seq<Ext>, bs: int, left: int, right: int): (r: Ext)
    requires Covers(|s|, bs, |feed|) && 0 <= left <= right < |s|
    ensures r.Fin? && r.v <= s[right]
  {
    ScanHead(s, feed, bs, left, right, Inf)
  }

  lemma ExtMinFold(a: Ext, x: int, y: int)
    ensures ExtMin(ExtMin(a, Fin(x)), Fin(y)) == ExtMin(a, Fin(Min(x, y)))
  {
  }

  /** The element-by-element phase computes the exact minimum. */
  lemma {:induction false} ScanTailExact(s: seq<int>, left: int, right: int, acc: Ext)
    requires 0 <= left <= right < |s|
    ensures ScanTail(s, left, right, acc) == ExtMin(acc, Fin(RangeMin(s, left, right)))
    decreases right - left
  {
    if left < right {
      ScanTailExact(s, left + 1, right, ExtMin(acc, Fin(s[left])));
      RangeMinCover(s, left, right, left, left + 1);
      ExtMinFold(acc, s[left], RangeMin(s, left + 1, right));
    }
  }

  lemma {:induction false} ScanBlocksExact(s: seq<int>, feed: seq<Ext>, bs: int, left: int, right: int, acc: Ext)
    requires Layout(|s|, bs, |feed|) && ExactFeed(s, feed, bs) && 0 <= left <= right < |s|
    requires left % bs == 0 || right < left + bs
    ensures ScanBlocks(s, feed, bs, left, right, acc) == ExtMin(acc, Fin(RangeMin(s, left, right)))
    decreases right - left
  {
    if left + bs <= right {
      NextBlockAligned(left, bs);
      BlockIndexInRange(left, bs, |feed|);
      assert feed[left / bs] == Fin(RangeMin(s, left, left + bs - 1));
      ScanBlocksExact(s, feed, bs, left + bs, right, ExtMin(acc, feed[left / bs]));
      RangeMinCover(s, left, right, left + bs - 1, left + bs);
      ExtMinFold(acc, RangeMin(s, left, left + bs - 1), RangeMin(s, left + bs, right));
    } else {
      ScanTailExact(s, left, right, acc);
    }
  }

  lemma {:induction false} ScanHeadExact(s: seq<int>, feed: seq<Ext>, bs: int, left: int, right: int, acc: Ext)
    requires Layout(|s|, bs, |feed|) && ExactFeed(s, feed, bs) && 0 <= left <= right < |s|
    ensures ScanHead(s, feed, bs, left, right, acc) == ExtMin(acc, Fin(RangeMin(s, left, right)))
    decreases right - left
  {
    if left < right && left % bs != 0 {
      ScanHeadExact(s, feed, bs, left + 1, right, ExtMin(acc, Fin(s[left])));
      RangeMinCover(s, left, right, left, left + 1);
      ExtMinFold(acc, s[left], RangeMin(s, left + 1, right));
    } else {
      ScanBlocksExact(s, feed, bs, left, right, acc);
    }
  }

  /** With exact block minima the three phases return RangeMin. */
  lemma ScanExact(s: seq<int>, feed: seq<Ext>, bs: int, left: int, right: int)
    requires Layout(|s|, bs, |feed|) && ExactFeed(s, feed, bs) && 0 <= left <= right < |s|
    ensures Scan(s, feed, bs, left, right) == Fin(RangeMin(s, left, right))
  {
    ScanHeadExact(s, feed, bs, left, right, Inf);
  }

  ghost predicate BelowRange(s: seq<int>, left: int, right: int, q: Ext)
    requires 0 <= left && right < |s|
  {
    q.Fin? && IsLowerBound(s, left, right, q.v)
  }

  lemma {:induction false} ScanBlocksWeak(s: seq<int>, feed: seq<Ext>, bs: int, left: int, right: int, acc: Ext)
    requires Layout(|s|, bs, |feed|) && WeakFeed(s, feed, bs) && 0 <= left <= right < |s|
    requires left % bs == 0 || right < left + bs
    ensures BelowRange(s, left, right, ScanBlocks(s, feed, bs, left, right, acc))
    ensures ExtLe(ScanBlocks(s, feed, bs, left, right, acc), acc)
    decreases right - left
  {
    if left + bs <= right {
      NextBlockAligned(left, bs);
      BlockIndexInRange(left, bs, |feed|);
      var acc' := ExtMin(acc, feed[left / bs]);
      ScanBlocksWeak(s, feed, bs, left + bs, right, acc');
      assert BlockEnd(|s|, bs, left / bs) == left + bs - 1;
    } else {
      ScanTailExact(s, left, right, acc);
      RangeMinIsMinimum(s, left, right);
    }
  }

  lemma {:induction false} ScanHeadWeak(s: seq<int>, feed: seq<Ext>, bs: int, left: int, right: int, acc: Ext)
    requires Layout(|s|, bs, |feed|) && WeakFeed(s, feed, bs) && 0 <= left <= right < |s|
    ensures BelowRange(s, left, right, ScanHead(s, feed, bs, left, right, acc))
    ensures ExtLe(ScanHead(s, feed, bs, left, right, acc), acc)
    decreases right - left
  {
    if left < right && left % bs != 0 {
      ScanHeadWeak(s, feed, bs, left + 1, right, ExtMin(acc, Fin(s[left])));
    } else {
      ScanBlocksWeak(s, feed, bs, left, right, acc);
    }
  }

  /** With only the weak invariant the three phases return a value at most
      RangeMin, possibly below it. */
  lemma ScanWeak(s: seq<int>, feed: seq<Ext>, bs: int, left: int, right: int)
    requires Layout(|s|, bs, |feed|) && WeakFeed(s, feed, bs) && 0 <= left <= right < |s|
    ensures Scan(s, feed, bs, left, right).Fin?
    ensures Scan(s, feed, bs, left, right).v <= RangeMin(s, left, right)
  {
    ScanHeadWeak(s, feed, bs, left, right, Inf);
    RangeMinIsMinimum(s, left, right);
  }

  /** The folding update loses exactness. From [5, 3, 8, 9, 7] (blocks of 3,
      feed [3, 7]), update(1, 10) leaves feed[0] at 3, and query(0, 4) then
      returns 3 through the whole-block phase although the minimum is 5. */
  lemma FoldCounterexample()
    ensures CeilSqrt(5) == 3 && NumBlocks(5, 3) == 2
    ensures Layout(5, 3, 2)
    ensures ExactFeed([5, 3, 8, 9, 7], [Fin(3), Fin(7)], 3)
    ensures FoldFeed([Fin(3), Fin(7)], 3, 1, 10) == [Fin(3), Fin(7)]
    ensures [5, 3, 8, 9, 7][1 := 10] == [5, 10, 8, 9, 7]
    ensures Scan([5, 10, 8, 9, 7], [Fin(3), Fin(7)], 3, 0, 4) == Fin(3)
    ensures RangeMin([5, 10, 8, 9, 7], 0, 4) == 5
    ensures !ExactFeed([5, 10, 8, 9, 7], [Fin(3), Fin(7)], 3)
  {
    assert CeilSqrtFrom(5, 3) == 3;
    assert CeilSqrtFrom(5, 2) == 3;
    LayoutHolds(5, 3);
    var s, s' := [5, 3, 8, 9, 7], [5, 10, 8, 9, 7];
    assert BlockEnd(5, 3, 0) == 2 && BlockEnd(5, 3, 1) == 4;
    assert RangeMin(s, 0, 2) == 3 && RangeMin(s, 3, 4) == 7;
    assert RangeMin(s', 0, 2) == 5;
    assert ScanBlocks(s', [Fin(3), Fin(7)], 3, 3, 4, Fin(3)) == Fin(3);
  }

  /** The constructor's loop: every element is folded into the entry of its
      block, which starts at +infinity; afterwards every entry is exact. */
  method FoldAll(s: seq<int>, feed: array<Ext>, bs: int)
    requires Layout(|s|, bs, feed.Length)
    requires forall b :: 0 <= b < feed.Length ==> feed[b] == Inf
    modifies feed
    ensures ExactFeed(s, feed[..], bs)
  {
    var index := 0;
    while index < |s|
      invariant 0 <= index <= |s|
      invariant forall b :: 0 <= b < feed.Length ==> feed[b] == PartialBlockMin(s, bs, b, index)
    {
      var blockIdx := index / bs;
      BlockIndexInRange(index, bs, feed.Length);
      forall b | 0 <= b < feed.Length {
        PartialBlockMinStep(s, bs, b, index);
      }
      feed[blockIdx] := ExtMin(feed[blockIdx], Fin(s[index]));
      index := index + 1;
    }
  }

  /** The rescan of one block after an update: the minimum of s[lo..hi]. */
  method RescanBlock(s: seq<int>, lo: int, hi: int) returns (blockMin: Ext)
    requires 0 <= lo <= hi < |s|
    ensures blockMin == Fin(RangeMin(s, lo, hi))
  {
    blockMin := Inf;
    var k := lo;
    while k <= hi
      invariant lo <= k <= hi + 1
      invariant k == lo ==> blockMin == Inf
      invariant k > lo ==> blockMin == Fin(RangeMin(s, lo, k - 1))
    {
      blockMin := ExtMin(blockMin, Fin(s[k]));
      k := k + 1;
    }
  }

  /** The whole-block phase of the query: adds feed[lo / bs] and advances lo
      by a block while a whole block fits before right. */
  method WholeBlocks(ghost s: seq<int>, feed: array<Ext>, bs: int, lo0: int, right: int, acc: Ext)
    returns (lo: int, currentMin: Ext)
    requires Covers(|s|, bs, feed.Length) && 0 <= lo0 <= right < |s|
    ensures lo0 <= lo <= right
    ensures ScanBlocks(s, feed[..], bs, lo0, right, acc) == ScanTail(s, lo, right, currentMin)
  {
    lo, currentMin := lo0, acc;
    while lo + bs <= right
      invariant lo0 <= lo <= right
      invariant ScanBlocks(s, feed[..], bs, lo, right, currentMin) == ScanBlocks(s, feed[..], bs, lo0, right, acc)
    {
      ScanBlocksStep(s, feed[..], bs, lo, right, currentMin);
      currentMin := ExtMin(currentMin, feed[lo / bs]);
      lo := lo + bs;
    }
  }

  // ---------------------------------------------------------------------
  // The structure

  class SRD {
    var arr: seq<int>
    const n: nat
    const blockSize: int
    const feed: array<Ext>

    /** The layout, and the weak invariant that both update variants keep. */
    ghost predicate Valid()
      reads this, feed
    {
      n >= 1 && |arr| == n && blockSize == CeilSqrt(n) &&
      feed.Length == NumBlocks(n, blockSize) && Layout(n, blockSize, feed.Length) &&
      WeakFeed(arr, feed[..], blockSize)
    }

    /** Every block minimum is exact. */
    ghost predicate Exact()
      reads this, feed
      requires Valid()
    {
      ExactFeed(arr, feed[..], blockSize)
    }

    /** Folds every element into the +infinity-initialised entry of its block. */
    constructor (s: seq<int>)
      requires |s| > 0
      ensures Valid() && Exact() && arr == s && fresh(feed)
    {
      arr := s;
      n := |s|;
      blockSize := CeilSqrt(|s|);
      feed := new Ext[NumBlocks(|s|, CeilSqrt(|s|))](_ => Inf);
      new;
      LayoutHolds(n, blockSize);
      FoldAll(arr, feed, blockSize);
      ExactIsWeak(arr, feed[..], blockSize);
    }

    /** Construction as the source does it: the empty list is a ValueError. */
    static method Create(s: seq<int>) returns (r: Result<SRD>)
      ensures r.Err? <==> |s| == 0
      ensures r.Err? ==> r.error == ValueError
      ensures r.Ok? ==> fresh(r.value) && r.value.Valid() && r.value.Exact() && r.value.arr == s
    {
      var check := CheckInput(s);
      if check.Fail? {
        return Err(check.error);
      }
      var t := new SRD(s);
      return Ok(t);
    }

    /** The update as the source writes it: arr[index] := v, then v is folded
        into the old minimum of its block. Only the weak invariant survives. */
    method UpdateFold(index: int, v: int) returns (o: Outcome)
      requires Valid()
      modifies this, feed
      ensures Valid()
      ensures o == CheckIndex(n, index)
      ensures o.Pass? ==> arr == old(arr)[index := v]
      ensures o.Pass? ==> feed[..] == FoldFeed(old(feed[..]), blockSize, index, v)
      ensures o.Fail? ==> arr == old(arr) && unchanged(feed)
    {
      o := CheckIndex(n, index);
      if o.Fail? {
        return;
      }
      FoldKeepsWeak(arr, feed[..], blockSize, index, v);
      arr := arr[index := v];
      var blockIdx := index / blockSize;
      feed[blockIdx] := ExtMin(feed[blockIdx], Fin(v));
    }

    /** The corrected update: arr[index] := v, then the block of index is
        rescanned, so exact block minima stay exact. */
    method Update(index: int, v: int) returns (o: Outcome)
      requires Valid()
      modifies this, feed
      ensures Valid()
      ensures o == CheckIndex(n, index)
      ensures o.Pass? ==> arr == old(arr)[index := v]
      ensures o.Pass? ==> feed[..] == RescanFeed(arr, old(feed[..]), blockSize, index)
      ensures o.Pass? && old(Exact()) ==> Exact()
      ensures o.Fail? ==> arr == old(arr) && unchanged(feed)
    {
      o := CheckIndex(n, index);
      if o.Fail? {
        return;
      }
      RescanKeepsWeak(arr, feed[..], blockSize, index, v);
      if ExactFeed(arr, feed[..], blockSize) {
        RescanKeepsExact(arr, feed[..], blockSize, index, v);
      }
      arr := arr[index := v];
      var blockIdx := index / blockSize;
      var lo := BlockStart(blockSize, blockIdx);
      var hi := BlockEnd(n, blockSize, blockIdx);
      var blockMin := RescanBlock(arr, lo, hi);
      feed[blockIdx] := blockMin;
    }

    /** The three-phase scan; `lo` plays the part of the source's `left`,
        which the source advances in place. */
    method Query(left: int, right: int) returns (r: Result<int>)
      requires Valid()
      ensures CheckRange(n, left, right).Fail? ==> r == Err(CheckRange(n, left, right).error)
      ensures CheckRange(n, left, right).Pass? ==>
        r.Ok? && Fin(r.value) == Scan(arr, feed[..], blockSize, left, right) &&
        r.value <= RangeMin(arr, left, right)
      ensures CheckRange(n, left, right).Pass? && Exact() ==> r == Ok(RangeMin(arr, left, right))
    {
      var check := CheckRange(n, left, right);
      if check.Fail? {
        return Err(check.error);
      }
      ghost var scan := Scan(arr, feed[..], blockSize, left, right);
      var currentMin := Inf;
      var lo := left;
      while lo < right && lo % blockSize != 0
        invariant left <= lo <= right
        invariant ScanHead(arr, feed[..], blockSize, lo, right, currentMin) == scan
      {
        currentMin := ExtMin(currentMin, Fin(arr[lo]));
        lo := lo + 1;
      }
      lo, currentMin := WholeBlocks(arr, feed, blockSize, lo, right, currentMin);
      while lo <= right
        invariant left <= lo <= right + 1
        invariant ScanTail(arr, lo, right, currentMin) == scan
      {
        currentMin := ExtMin(currentMin, Fin(arr[lo]));
        lo := lo + 1;
      }
      ScanWeak(arr, feed[..], blockSize, left, right);
      if ExactFeed(arr, feed[..], blockSize) {
        ScanExact(arr, feed[..], blockSize, left, right);
      }
      return Ok(currentMin.v);
    }
  }
}
