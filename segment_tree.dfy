/** A segment tree stored in a flat buffer of 4n entries: the node at index
    `node` covering [start, end] has its children at 2*node+1, covering
    [start, mid], and 2*node+2, covering [mid+1, end], where
    mid = (start + end) / 2. */
module SegmentTreeRmq {
  import opened RangeMinSpec
  import opened PowersOfTwo

  /** The split point `(start + end) // 2`: both halves [start, m] and
      [m + 1, end] of a range of two or more elements are non-empty, and the
      left one is at most one element longer. */
  function Mid(start: int, end: int): (m: int)
    ensures start <= end ==> start <= m <= end
    ensures start < end ==> m < end
    ensures start <= end ==> end - m <= m - start + 1 <= end - m + 1
  {
    (start + end) / 2
  }

  // ---------------------------------------------------------------------
  // Node indices

  /** `k` lies in the subtree rooted at `c` (parent of k is (k - 1) / 2). */
  ghost predicate IsDesc(k: int, c: int)
    requires 0 <= c
    decreases k
  {
    k == c || (k > c && IsDesc((k - 1) / 2, c))
  }

  lemma {:induction false} DescAtLeast(k: int, c: int)
    requires 0 <= c && IsDesc(k, c)
    ensures c <= k
  {
  }

  lemma {:induction false} ChildDesc(k: int, c: int)
    requires 0 <= c && (k == 2 * c + 1 || k == 2 * c + 2)
    ensures IsDesc(k, c)
  {
    assert (k - 1) / 2 == c;
  }

  /** A node below a child is below its parent. */
  lemma {:induction false} DescTrans(k: int, child: int, c: int)
    requires 0 <= c && (child == 2 * c + 1 || child == 2 * c + 2)
    requires IsDesc(k, child)
    ensures IsDesc(k, c)
    decreases k
  {
    if k == child {
      ChildDesc(k, c);
    } else {
      DescTrans((k - 1) / 2, child, c);
    }
  }

  /** The subtrees of two siblings share no node. */
  lemma {:induction false} SiblingsDisjoint(k: int, p: int)
    requires 0 <= p
    ensures !(IsDesc(k, 2 * p + 1) && IsDesc(k, 2 * p + 2))
    decreases k
  {
    if IsDesc(k, 2 * p + 1) && IsDesc(k, 2 * p + 2) {
      if k == 2 * p + 1 {
        assert false;
      } else if k == 2 * p + 2 {
        DescAtLeast(p, 2 * p + 1);
        assert false;
      } else {
        SiblingsDisjoint((k - 1) / 2, p);
        assert false;
      }
    }
  }

  /** Every node the recursion reaches from `node` over [start, end] has an
      index below `size`. */
  ghost predicate Fits(node: int, start: int, end: int, size: int)
    requires 0 <= node && start <= end
    decreases end - start
  {
    node < size &&
    (start < end ==>
      Fits(2 * node + 1, start, Mid(start, end), size) &&
      Fits(2 * node + 2, Mid(start, end) + 1, end, size))
  }

  /** The smallest power of two that is at least n. */
  function CeilPow2(n: int): (p: int)
    requires n >= 1
    ensures IsPow2(p) && n <= p
    ensures n >= 2 ==> p <= 2 * n - 2
    decreases n
  {
    if n == 1 then 1 else 2 * CeilPow2((n + 1) / 2)
  }

  lemma {:induction false} FitsBelow(node: int, start: int, end: int, q: int, w: int, n: int)
    requires 0 <= node && start <= end && n >= 1
    requires IsPow2(q) && end - start + 1 <= q
    requires w >= 1 && node + 1 < 2 * w && q * w <= 2 * n - 1
    ensures Fits(node, start, end, 4 * n)
    decreases end - start
  {
    assert w <= q * w;
    if start < end {
      assert q >= 2 && q % 2 == 0;
      var m := Mid(start, end);
      assert (q / 2) * (2 * w) == q * w;
      FitsBelow(2 * node + 1, start, m, q / 2, 2 * w, n);
      FitsBelow(2 * node + 2, m + 1, end, q / 2, 2 * w, n);
    }
  }

  /** The 4n buffer is large enough for every node the recursion reaches. */
  lemma RootFits(n: int)
    requires n >= 1
    ensures Fits(0, 0, n - 1, 4 * n)
  {
    FitsBelow(0, 0, n - 1, CeilPow2(n), 1, n);
  }

  // ---------------------------------------------------------------------
  // The tree invariant

  /** Every node reached from `node` over [start, end] holds the minimum of
      its range; a leaf therefore holds its element. */
  ghost predicate TreeOk(t: seq<Ext>, s: seq<int>, node: int, start: int, end: int)
    requires 0 <= node && 0 <= start <= end < |s|
    decreases end - start
  {
    node < |t| && t[node] == Fin(RangeMin(s, start, end)) &&
    (start < end ==>
      TreeOk(t, s, 2 * node + 1, start, Mid(start, end)) &&
      TreeOk(t, s, 2 * node + 2, Mid(start, end) + 1, end))
  }

  /** TreeOk of a subtree only reads the subtree's nodes and the elements of
      its range. */
  lemma {:induction false} TreeOkFrame(t: seq<Ext>, t': seq<Ext>, s: seq<int>, s': seq<int>,
                                       node: int, start: int, end: int)
    requires 0 <= node && 0 <= start <= end < |s| && |s'| == |s| && |t'| == |t|
    requires TreeOk(t, s, node, start, end)
    requires forall k :: 0 <= k < |t| && IsDesc(k, node) ==> t'[k] == t[k]
    requires forall k :: start <= k <= end ==> s'[k] == s[k]
    ensures TreeOk(t', s', node, start, end)
    decreases end - start
  {
    assert IsDesc(node, node);
    RangeMinAgree(s, s', start, end);
    if start < end {
      var m := Mid(start, end);
      forall k | 0 <= k < |t| && IsDesc(k, 2 * node + 1) ensures t'[k] == t[k] {
        DescTrans(k, 2 * node + 1, node);
      }
      forall k | 0 <= k < |t| && IsDesc(k, 2 * node + 2) ensures t'[k] == t[k] {
        DescTrans(k, 2 * node + 2, node);
      }
      TreeOkFrame(t, t', s, s', 2 * node + 1, start, m);
      TreeOkFrame(t, t', s, s', 2 * node + 2, m + 1, end);
    }
  }

  /** The nodes `update` visits on its way from `node` to the leaf of `index`. */
  ghost function Path(node: int, start: int, end: int, index: int): set<int>
    requires start <= end
    decreases end - start
  {
    {node} +
    if start == end then {}
    else if index <= Mid(start, end) then Path(2 * node + 1, start, Mid(start, end), index)
    else Path(2 * node + 2, Mid(start, end) + 1, end, index)
  }

  lemma {:induction false} PathInSubtree(node: int, start: int, end: int, index: int, k: int)
    requires 0 <= node && start <= end && k in Path(node, start, end, index)
    ensures IsDesc(k, node)
    decreases end - start
  {
    if k != node {
      var m := Mid(start, end);
      var child := if index <= m then 2 * node + 1 else 2 * node + 2;
      if index <= m {
        PathInSubtree(child, start, m, index, k);
      } else {
        PathInSubtree(child, m + 1, end, index, k);
      }
      DescTrans(k, child, node);
    }
  }

  /** Once both children of `node` satisfy TreeOk, storing the min of the
      two children at `node` makes the whole subtree satisfy it. */
  lemma ParentRepair(t: seq<Ext>, s: seq<int>, node: int, start: int, end: int)
    requires 0 <= node < |t| && 0 <= start < end < |s|
    requires TreeOk(t, s, 2 * node + 1, start, Mid(start, end))
    requires TreeOk(t, s, 2 * node + 2, Mid(start, end) + 1, end)
    ensures TreeOk(t[node := ExtMin(t[2 * node + 1], t[2 * node + 2])], s, node, start, end)
  {
    var m := Mid(start, end);
    var t' := t[node := ExtMin(t[2 * node + 1], t[2 * node + 2])];
    RangeMinCover(s, start, end, m, m + 1);
    forall k | 0 <= k < |t| && IsDesc(k, 2 * node + 1) ensures t'[k] == t[k] {
      DescAtLeast(k, 2 * node + 1);
    }
    forall k | 0 <= k < |t| && IsDesc(k, 2 * node + 2) ensures t'[k] == t[k] {
      DescAtLeast(k, 2 * node + 2);
    }
    TreeOkFrame(t, t', s, s, 2 * node + 1, start, m);
    TreeOkFrame(t, t', s, s, 2 * node + 2, m + 1, end);
  }

  /** While `update` works below one child, the other child's subtree keeps
      TreeOk: none of its nodes is on the path and none of its elements
      changes. */
  lemma SiblingKept(before: seq<Ext>, after: seq<Ext>, s: seq<int>, s': seq<int>,
                    node: int, child: int, cs: int, ce: int, sibling: int, ss: int, se: int, index: int)
    requires 0 <= node && |after| == |before| && |s'| == |s|
    requires (child, sibling) == (2 * node + 1, 2 * node + 2) || (child, sibling) == (2 * node + 2, 2 * node + 1)
    requires 0 <= cs <= index <= ce < |s| && 0 <= ss <= se < |s| && (se < cs || ce < ss)
    requires TreeOk(before, s, sibling, ss, se)
    requires forall k :: 0 <= k < |s| && k != index ==> s'[k] == s[k]
    requires forall k :: 0 <= k < |before| && k !in Path(child, cs, ce, index) ==> after[k] == before[k]
    ensures TreeOk(after, s', sibling, ss, se)
  {
    forall k | 0 <= k < |before| && IsDesc(k, sibling) ensures after[k] == before[k] {
      if k in Path(child, cs, ce, index) {
        PathInSubtree(child, cs, ce, index, k);
        SiblingsDisjoint(k, node);
      }
    }
    TreeOkFrame(before, after, s, s', sibling, ss, se);
  }

  /** After `update` has repaired the child on the path, writing the min of
      both children into `node` repairs `node`, and only nodes on the path
      from `node` to the leaf of index differ from the tree before. */
  lemma UpdateStep(before: seq<Ext>, after: seq<Ext>, s: seq<int>, s': seq<int>,
                   node: int, start: int, end: int, index: int)
    requires 0 <= node && 2 * node + 2 < |before| && |after| == |before| && |s'| == |s|
    requires 0 <= start <= index <= end < |s| && start < end
    requires TreeOk(before, s, node, start, end)
    requires forall k :: 0 <= k < |s| && k != index ==> s'[k] == s[k]
    requires index <= Mid(start, end) ==>
      TreeOk(after, s', 2 * node + 1, start, Mid(start, end)) &&
      forall k :: 0 <= k < |before| && k !in Path(2 * node + 1, start, Mid(start, end), index) ==>
        after[k] == before[k]
    requires Mid(start, end) < index ==>
      TreeOk(after, s', 2 * node + 2, Mid(start, end) + 1, end) &&
      forall k :: 0 <= k < |before| && k !in Path(2 * node + 2, Mid(start, end) + 1, end, index) ==>
        after[k] == before[k]
    ensures TreeOk(after[node := ExtMin(after[2 * node + 1], after[2 * node + 2])], s', node, start, end)
    ensures forall k :: 0 <= k < |before| && k !in Path(node, start, end, index) ==>
              after[node := ExtMin(after[2 * node + 1], after[2 * node + 2])][k] == before[k]
  {
    var m := Mid(start, end);
    if index <= m {
      SiblingKept(before, after, s, s', node, 2 * node + 1, start, m, 2 * node + 2, m + 1, end, index);
    } else {
      SiblingKept(before, after, s, s', node, 2 * node + 2, m + 1, end, 2 * node + 1, start, m, index);
    }
    ParentRepair(after, s', node, start, end);
  }

  // ---------------------------------------------------------------------
  // Query

  /** The recursive range decomposition: +infinity for a node disjoint from
      [left, right], the stored minimum for a node inside it, and the min of
      both children otherwise. On a tree that satisfies TreeOk it is the
      minimum of the part of [start, end] that lies in [left, right]. */
  function QueryRec(t: seq<Ext>, ghost s: seq<int>, node: int, start: int, end: int,
                    left: int, right: int): (q: Ext)
    requires 0 <= node && 0 <= start <= end < |s| && TreeOk(t, s, node, start, end)
    ensures right < start || end < left || right < left ==> q == Inf
    ensures left <= start && end <= right ==> q == t[node]
    ensures left <= right && !(right < start || end < left) ==>
      q == Fin(RangeMin(s, if left < start then start else left, if end < right then end else right))
    decreases end - start
  {
    if right < start || end < left then
      Inf
    else if left <= start && end <= right then
      t[node]
    else
      var m := Mid(start, end);
      var q1 := QueryRec(t, s, 2 * node + 1, start, m, left, right);
      var q2 := QueryRec(t, s, 2 * node + 2, m + 1, end, left, right);
      var lo := if left < start then start else left;
      var hi := if end < right then end else right;
      assert q1.Fin? && q2.Fin? ==> ExtMin(q1, q2) == Fin(RangeMin(s, lo, hi)) by {
        if q1.Fin? && q2.Fin? {
          RangeMinCover(s, lo, hi, m, m + 1);
        }
      }
      ExtMin(q1, q2)
  }

  // ---------------------------------------------------------------------
  // The structure

  class SegmentTree {
    var arr: seq<int>
    const n: nat
    const tree: array<Ext>

    ghost predicate Valid()
      reads this, tree
    {
      n >= 1 && |arr| == n && tree.Length == 4 * n &&
      TreeOk(tree[..], arr, 0, 0, n - 1)
    }

    /** Allocates 4n entries of +infinity and builds the tree from the root. */
    constructor (s: seq<int>)
      requires |s| > 0
      ensures Valid() && arr == s && fresh(tree)
    {
      arr := s;
      n := |s|;
      tree := new Ext[4 * |s|](_ => Inf);
      new;
      RootFits(n);
      ConstructRec(0, 0, n - 1);
    }

    /** Construction as the source does it: the empty list is a ValueError. */
    static method Create(s: seq<int>) returns (r: Result<SegmentTree>)
      ensures r.Err? <==> |s| == 0
      ensures r.Err? ==> r.error == ValueError
      ensures r.Ok? ==> fresh(r.value) && r.value.Valid() && r.value.arr == s
    {
      var check := CheckInput(s);
      if check.Fail? {
        return Err(check.error);
      }
      var t := new SegmentTree(s);
      return Ok(t);
    }

    /** Post-order build of the subtree at `node`: children first, then the
        parent as the min of the two. Writes only inside that subtree. */
    method ConstructRec(node: int, start: int, end: int)
      requires 0 <= node && 0 <= start <= end < |arr| && Fits(node, start, end, tree.Length)
      modifies tree
      ensures TreeOk(tree[..], arr, node, start, end)
      ensures forall k :: 0 <= k < tree.Length && !IsDesc(k, node) ==> tree[k] == old(tree[k])
      decreases end - start
    {
      if start == end {
        tree[node] := Fin(arr[start]);
      } else {
        var m := Mid(start, end);
        ConstructRec(2 * node + 1, start, m);
        ghost var afterLeft := tree[..];
        ConstructRec(2 * node + 2, m + 1, end);
        forall k | 0 <= k < tree.Length && IsDesc(k, 2 * node + 1)
          ensures tree[k] == afterLeft[k]
        {
          SiblingsDisjoint(k, node);
        }
        TreeOkFrame(afterLeft, tree[..], arr, arr, 2 * node + 1, start, m);
        ParentRepair(tree[..], arr, node, start, end);
        tree[node] := ExtMin(tree[2 * node + 1], tree[2 * node + 2]);
        forall k | 0 <= k < tree.Length && !IsDesc(k, node)
          ensures tree[k] == old(tree[k])
        {
          if IsDesc(k, 2 * node + 1) { DescTrans(k, 2 * node + 1, node); }
          if IsDesc(k, 2 * node + 2) { DescTrans(k, 2 * node + 2, node); }
        }
      }
    }

    /** Assigns arr[index] := v and repairs the nodes on the path from the
        root to that leaf; an index outside [0, n) is an IndexError and
        changes nothing. */
    method Update(index: int, v: int) returns (o: Outcome)
      requires Valid()
      modifies this, tree
      ensures Valid()
      ensures o == CheckIndex(n, index)
      ensures o.Pass? ==> arr == old(arr)[index := v]
      ensures o.Pass? ==> forall k :: 0 <= k < tree.Length && k !in Path(0, 0, n - 1, index) ==>
                            tree[k] == old(tree[k])
      ensures o.Fail? ==> arr == old(arr) && unchanged(tree)
    {
      o := CheckIndex(n, index);
      if o.Fail? {
        return;
      }
      UpdateRec(0, 0, n - 1, index, v);
    }

    /** Descends to the leaf of `index`, assigns the element and the leaf, and
        recomputes each node on the way back up as the min of its children. */
    method UpdateRec(node: int, start: int, end: int, index: int, v: int)
      requires 0 <= node && 0 <= start <= index <= end < |arr|
      requires TreeOk(tree[..], arr, node, start, end)
      modifies this, tree
      ensures arr == old(arr)[index := v]
      ensures TreeOk(tree[..], arr, node, start, end)
      ensures forall k :: 0 <= k < tree.Length && k !in Path(node, start, end, index) ==>
                tree[k] == old(tree[k])
      decreases end - start
    {
      if start == end {
        arr := arr[index := v];
        tree[node] := Fin(v);
      } else {
        var m := Mid(start, end);
        ghost var before := tree[..];
        ghost var arrBefore := arr;
        if index <= m {
          UpdateRec(2 * node + 1, start, m, index, v);
          UpdateStep(before, tree[..], arrBefore, arr, node, start, end, index);
        } else {
          UpdateRec(2 * node + 2, m + 1, end, index, v);
          UpdateStep(before, tree[..], arrBefore, arr, node, start, end, index);
        }
        tree[node] := ExtMin(tree[2 * node + 1], tree[2 * node + 2]);
      }
    }

    /** The minimum of arr[left..right] by range decomposition from the root. */
    method Query(left: int, right: int) returns (r: Result<int>)
      requires Valid()
      ensures CheckRange(n, left, right).Fail? ==> r == Err(CheckRange(n, left, right).error)
      ensures CheckRange(n, left, right).Pass? ==> r == Ok(RangeMin(arr, left, right))
    {
      var check := CheckRange(n, left, right);
      if check.Fail? {
        return Err(check.error);
      }
      var q := QueryRec(tree[..], arr, 0, 0, n - 1, left, right);
      return Ok(q.v);
    }
  }
}
