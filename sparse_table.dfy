/** Sparse table: st[i, j] holds the minimum of the 2^j elements starting at
    i, for every such window that fits in the list, and `lt[k]` holds
    floor(log2 k). A query combines two overlapping windows of the largest
    power-of-two length that fits in the range; an update rebuilds the whole
    table. */
module SparseTableRmq {
  import opened RangeMinSpec
  import opened PowersOfTwo

  /** Every column j below `levels` is filled: each window of 2^j elements
      that fits in s holds its minimum. */
  ghost predicate TableOk(st: array2<Ext>, s: seq<int>, levels: int)
    reads st
    requires st.Length0 == |s|
  {
    forall i: int, j: nat :: 0 <= j < levels && j < st.Length1 && 0 <= i && i + Pow2(j) <= |s| ==>
      st[i, j] == Fin(RangeMin(s, i, i + Pow2(j) - 1))
  }

  /** Columns from FloorLog2(|s|) + 1 on hold no window that fits, so a table
      filled up to there is filled everywhere. */
  lemma TableOkWiden(st: array2<Ext>, s: seq<int>, levels: int)
    requires st.Length0 == |s| >= 1 && FloorLog2(|s|) < levels
    requires TableOk(st, s, levels)
    ensures TableOk(st, s, st.Length1)
  {
    forall j: nat | levels <= j < st.Length1
      ensures Pow2(j) > |s|
    {
      Pow2Below(j, |s|);
    }
  }

  /** One pass of the build's inner loop: every window of 2^j elements is
      the min of its two halves at level j - 1. Only column j is written. */
  method FillLevel(s: seq<int>, st: array2<Ext>, j: nat)
    requires st.Length0 == |s| && 1 <= j < st.Length1 && Pow2(j) <= |s|
    requires TableOk(st, s, j)
    modifies st
    ensures TableOk(st, s, j + 1)
    ensures forall i, k :: 0 <= i < st.Length0 && 0 <= k < st.Length1 && k != j ==> st[i, k] == old(st[i, k])
  {
    var n := |s|;
    var half := Pow2(j - 1);
    var i := 0;
    while i + Pow2(j) <= n
      invariant 0 <= i && i + Pow2(j) <= n + 1
      invariant TableOk(st, s, j)
      invariant forall k :: 0 <= k < i ==> st[k, j] == Fin(RangeMin(s, k, k + Pow2(j) - 1))
      invariant forall i', k :: 0 <= i' < st.Length0 && 0 <= k < st.Length1 && k != j ==> st[i', k] == old(st[i', k])
    {
      RangeMinCover(s, i, i + Pow2(j) - 1, i + half - 1, i + half);
      st[i, j] := ExtMin(st[i, j - 1], st[i + half, j - 1]);
      i := i + 1;
    }
  }

  /** The build: level 0 copies the list, and level j combines two windows
      of level j - 1. A column the table does not have is the IndexError of
      the source's list assignment; it happens exactly when the table is
      narrower than FloorLog2(n) + 1. */
  method BuildTable(s: seq<int>, st: array2<Ext>) returns (o: Outcome)
    requires |s| >= 1 && st.Length0 == |s|
    modifies st
    ensures o.Pass? <==> FloorLog2(|s|) < st.Length1
    ensures o.Fail? ==> o.error == IndexError
    ensures o.Pass? ==> TableOk(st, s, st.Length1)
  {
    var n := |s|;
    if st.Length1 == 0 {
      return Fail(IndexError);
    }
    for i := 0 to n
      invariant forall k :: 0 <= k < i ==> st[k, 0] == Fin(s[k])
    {
      st[i, 0] := Fin(s[i]);
    }
    var j := 1;
    while Pow2(j) <= n
      invariant 1 <= j <= st.Length1 && j <= FloorLog2(n) + 1
      invariant TableOk(st, s, j)
    {
      Pow2Below(j, n);
      if j >= st.Length1 {
        return Fail(IndexError);
      }
      FillLevel(s, st, j);
      j := j + 1;
    }
    Pow2Below(j, n);
    TableOkWiden(st, s, j);
    o := Pass;
  }

  /** One entry of a filled table. */
  lemma TableEntry(st: array2<Ext>, s: seq<int>, i: int, j: nat)
    requires st.Length0 == |s| && TableOk(st, s, st.Length1)
    requires j < st.Length1 && 0 <= i && i + Pow2(j) <= |s|
    ensures st[i, j] == Fin(RangeMin(s, i, i + Pow2(j) - 1))
  {
  }

  /** Two windows of p elements, one starting at left and one ending at
      right, cover [left, right] when p <= right - left + 1 < 2 * p. */
  lemma WindowsCover(s: seq<int>, left: int, right: int, p: int)
    requires 0 <= left <= right < |s| && 1 <= p <= right - left + 1 < 2 * p
    ensures left <= right - p + 1 <= left + p
    ensures Min(RangeMin(s, left, left + p - 1), RangeMin(s, right - p + 1, right)) ==
            RangeMin(s, left, right)
  {
    RangeMinCover(s, left, right, left + p - 1, right - p + 1);
  }

  /** The two windows of 2^FloorLog2(len) elements that start at left and
      end at right lie inside [left, right], overlap or touch, and cover it. */
  lemma TwoWindows(s: seq<int>, left: int, right: int)
    requires 0 <= left <= right < |s|
    ensures FloorLog2(right - left + 1) <= FloorLog2(|s|)
    ensures var p := Pow2(FloorLog2(right - left + 1));
      left <= right - p + 1 <= left + p &&
      Min(RangeMin(s, left, left + p - 1), RangeMin(s, right - p + 1, right)) == RangeMin(s, left, right)
  {
    var len := right - left + 1;
    var f := FloorLog2(len);
    assert Pow2(f + 1) == 2 * Pow2(f);
    WindowsCover(s, left, right, Pow2(f));
    FloorLog2Mono(len, |s|);
  }

  /** The query's two table cells at column j = FloorLog2(len) exist in a
      full table and combine to the range minimum. */
  lemma QueryCells(st: array2<Ext>, s: seq<int>, left: int, right: int, j: nat)
    requires st.Length0 == |s| && st.Length1 == FloorLog2(|s|) + 1 && TableOk(st, s, st.Length1)
    requires 0 <= left <= right < |s| && j == FloorLog2(right - left + 1)
    ensures j < st.Length1 && left <= right - Pow2(j) + 1 <= right
    ensures ExtMin(st[left, j], st[right - Pow2(j) + 1, j]) == Fin(RangeMin(s, left, right))
  {
    var p := Pow2(j);
    var b := right - p + 1;
    TwoWindows(s, left, right);
    assert j < st.Length1 && left <= b <= right;
    var x, y := RangeMin(s, left, left + p - 1), RangeMin(s, b, right);
    assert Min(x, y) == RangeMin(s, left, right);
    assert st[left, j] == Fin(x) by {
      TableEntry(st, s, left, j);
    }
    assert st[b, j] == Fin(y) by {
      TableEntry(st, s, b, j);
      assert b + p - 1 == right;
    }
  }

  class SparseTable {
    var arr: seq<int>
    const n: nat
    const lt: array<nat>
    const st: array2<Ext>

    /** `lt` is floor(log2), and the table has the FloorLog2(n) + 1 columns
        the build writes, all filled for the current list. */
    ghost predicate Valid()
      reads this, lt, st
    {
      n >= 1 && |arr| == n &&
      lt.Length == n + 1 && (forall k :: 0 <= k <= n ==> lt[k] == FloorLog2(k)) &&
      st.Length0 == n && st.Length1 == FloorLog2(n) + 1 &&
      TableOk(st, arr, st.Length1)
    }

    /** Fills `lt` by the halving recurrence, then allocates lt[n] + 1
        columns and builds the table. */
    constructor (s: seq<int>)
      requires |s| > 0
      ensures Valid() && arr == s && fresh(lt) && fresh(st)
    {
      arr := s;
      n := |s|;
      var logs := new nat[|s| + 1](_ => 0);
      for i := 2 to |s| + 1
        invariant forall k :: 0 <= k < i ==> logs[k] == FloorLog2(k)
      {
        logs[i] := logs[i / 2] + 1;
      }
      lt := logs;
      st := new Ext[|s|, logs[|s|] + 1]((_, _) => Inf);
      new;
      var built := BuildTable(arr, st);
    }

    /** Construction with the corrected width: the empty list is a
        ValueError, every other list succeeds. */
    static method Create(s: seq<int>) returns (r: Result<SparseTable>)
      ensures r.Err? <==> |s| == 0
      ensures r.Err? ==> r.error == ValueError
      ensures r.Ok? ==> fresh(r.value) && r.value.Valid() && r.value.arr == s
    {
      var check := CheckInput(s);
      if check.Fail? {
        return Err(check.error);
      }
      var t := new SparseTable(s);
      return Ok(t);
    }

    /** Construction as written: the table gets ceil(log2 n) columns, and
        the build then fails with IndexError exactly when n is a power of
        two. Otherwise ceil(log2 n) is FloorLog2(n) + 1 (CeilVsFloor), which
        is the width the constructor allocates, so the structure it builds
        is the as-written object, with exactly ceil(log2 n) columns. */
    static method CreateAsWritten(s: seq<int>) returns (r: Result<SparseTable>)
      ensures |s| == 0 ==> r == Err(ValueError)
      ensures |s| > 0 ==> (r.Err? <==> IsPow2(|s|))
      ensures |s| > 0 && r.Err? ==> r.error == IndexError
      ensures r.Ok? ==> fresh(r.value) && r.value.Valid() && r.value.arr == s
      ensures r.Ok? ==> r.value.st.Length1 == CeilLog2(|s|)
    {
      var check := CheckInput(s);
      if check.Fail? {
        return Err(check.error);
      }
      var table := new Ext[|s|, CeilLog2(|s|)]((_, _) => Inf);
      var built := BuildTable(s, table);
      CeilVsFloor(|s|);
      if built.Fail? {
        return Err(built.error);
      }
      var t := new SparseTable(s);
      return Ok(t);
    }

    /** Assigns arr[index] := v and rebuilds the table for the new list. */
    method Update(index: int, v: int) returns (o: Outcome)
      requires Valid()
      modifies this, st
      ensures Valid()
      ensures o == CheckIndex(n, index)
      ensures o.Pass? ==> arr == old(arr)[index := v]
      ensures o.Fail? ==> arr == old(arr) && unchanged(st)
    {
      o := CheckIndex(n, index);
      if o.Fail? {
        return;
      }
      arr := arr[index := v];
      var built := BuildTable(arr, st);
    }

    /** The min of the two windows of 2^lt[len] elements that start at left
        and end at right; they overlap and together cover [left, right]. */
    method Query(left: int, right: int) returns (r: Result<int>)
      requires Valid()
      ensures CheckRange(n, left, right).Fail? ==> r == Err(CheckRange(n, left, right).error)
      ensures CheckRange(n, left, right).Pass? ==> r == Ok(RangeMin(arr, left, right))
    {
      var check := CheckRange(n, left, right);
      if check.Fail? {
        return Err(check.error);
      }
      var j := lt[right - left + 1];
      QueryCells(st, arr, left, right, j);
      var m := ExtMin(st[left, j], st[right - Pow2(j) + 1, j]);
      return Ok(m.v);
    }
  }
}
