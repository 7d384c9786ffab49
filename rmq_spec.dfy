/** The contract shared by the four range-minimum-query structures: the
    minimum over an inclusive range, the +infinity sentinel, and the
    validation every structure performs before it reads or writes anything. */
module RangeMinSpec {

  /** A value or +infinity, the identity of `min`. */
  datatype Ext = Fin(v: int) | Inf

  function Min(a: int, b: int): int
  {
    if a <= b then a else b
  }

  function ExtMin(a: Ext, b: Ext): (m: Ext)
    ensures m == a || m == b
    ensures m.Fin? <==> a.Fin? || b.Fin?
    ensures a.Fin? && b.Fin? ==> m == Fin(Min(a.v, b.v))
  {
    match (a, b)
    case (Inf, _) => b
    case (_, Inf) => a
    case (Fin(x), Fin(y)) => if y < x then b else a
  }

  /** `a` is below or equal to `b` in the extended order. */
  predicate ExtLe(a: Ext, b: Ext)
  {
    b.Inf? || (a.Fin? && a.v <= b.v)
  }

  /** `a` is strictly below `b`; every finite value is below +infinity. */
  predicate ExtLt(a: Ext, b: Ext)
  {
    a.Fin? && (b.Inf? || a.v < b.v)
  }

  /** The minimum of s[l..r], both ends inclusive. */
  function RangeMin(s: seq<int>, l: int, r: int): int
    requires 0 <= l <= r < |s|
    decreases r - l
  {
    if l == r then s[l] else Min(RangeMin(s, l, r - 1), s[r])
  }

  ghost predicate IsLowerBound(s: seq<int>, l: int, r: int, m: int)
    requires 0 <= l && r < |s|
  {
    forall k :: l <= k <= r ==> m <= s[k]
  }

  ghost predicate IsAttained(s: seq<int>, l: int, r: int, m: int)
    requires 0 <= l && r < |s|
  {
    exists k :: l <= k <= r && s[k] == m
  }

  /** RangeMin is below every element of the range and is one of them. */
  lemma {:induction false} RangeMinIsMinimum(s: seq<int>, l: int, r: int)
    requires 0 <= l <= r < |s|
    ensures IsLowerBound(s, l, r, RangeMin(s, l, r))
    ensures IsAttained(s, l, r, RangeMin(s, l, r))
    decreases r - l
  {
    if l == r {
      assert s[l] == RangeMin(s, l, r);
    } else {
      RangeMinIsMinimum(s, l, r - 1);
      var k :| l <= k <= r - 1 && s[k] == RangeMin(s, l, r - 1);
      if RangeMin(s, l, r) == s[r] {
        assert s[r] == RangeMin(s, l, r);
      } else {
        assert s[k] == RangeMin(s, l, r);
      }
    }
  }

  /** The two properties of RangeMinIsMinimum determine the minimum: any value
      below every element of the range that is one of them is RangeMin. */
  lemma {:induction false} RangeMinUnique(s: seq<int>, l: int, r: int, m: int)
    requires 0 <= l <= r < |s|
    requires IsLowerBound(s, l, r, m) && IsAttained(s, l, r, m)
    ensures m == RangeMin(s, l, r)
  {
    RangeMinIsMinimum(s, l, r);
    var k :| l <= k <= r && s[k] == m;
    var j :| l <= j <= r && s[j] == RangeMin(s, l, r);
    assert m <= s[j] && RangeMin(s, l, r) <= s[k];
  }

  /** Two ranges that overlap or touch and together cover [l, r] combine with
      min to the minimum of [l, r]; the segment tree splits at a midpoint, the
      sparse table overlaps two windows of equal length. */
  lemma RangeMinCover(s: seq<int>, l: int, r: int, a: int, b: int)
    requires 0 <= l <= a <= r < |s|
    requires l <= b <= r && b <= a + 1
    ensures RangeMin(s, l, r) == Min(RangeMin(s, l, a), RangeMin(s, b, r))
  {
    RangeMinIsMinimum(s, l, a);
    RangeMinIsMinimum(s, b, r);
    var m := Min(RangeMin(s, l, a), RangeMin(s, b, r));
    forall k | l <= k <= r ensures m <= s[k] {
      if k <= a { assert RangeMin(s, l, a) <= s[k]; } else { assert RangeMin(s, b, r) <= s[k]; }
    }
    if m == RangeMin(s, l, a) {
      var k :| l <= k <= a && s[k] == m;
      assert IsAttained(s, l, r, m);
    } else {
      var k :| b <= k <= r && s[k] == m;
      assert IsAttained(s, l, r, m);
    }
    RangeMinUnique(s, l, r, m);
  }

  /** The minimum of a range only depends on the elements inside it. */
  lemma {:induction false} RangeMinAgree(s: seq<int>, t: seq<int>, l: int, r: int)
    requires 0 <= l <= r < |s| && r < |t|
    requires forall k :: l <= k <= r ==> s[k] == t[k]
    ensures RangeMin(s, l, r) == RangeMin(t, l, r)
    decreases r - l
  {
    if l < r {
      RangeMinAgree(s, t, l, r - 1);
    }
  }

  /** An assignment outside [l, r] leaves the minimum of [l, r] unchanged. */
  lemma RangeMinUnaffected(s: seq<int>, i: int, v: int, l: int, r: int)
    requires 0 <= l <= r < |s| && 0 <= i < |s|
    requires i < l || r < i
    ensures RangeMin(s[i := v], l, r) == RangeMin(s, l, r)
  {
    RangeMinAgree(s, s[i := v], l, r);
  }

  // ---------------------------------------------------------------------
  // Errors and validation, identical in all four structures.

  /** IndexError: an index or bound outside [0, n); ValueError: an empty input
      list at construction, or left > right in a query. */
  datatype Error = IndexError | ValueError

  datatype Outcome = Pass | Fail(error: Error)

  datatype Result<T> = Ok(value: T) | Err(error: Error)

  /** Construction rejects the empty list. */
  function CheckInput(s: seq<int>): (o: Outcome)
    ensures o.Pass? <==> |s| > 0
    ensures o.Fail? ==> o.error == ValueError
  {
    if |s| == 0 then Fail(ValueError) else Pass
  }

  /** `update` rejects an index outside [0, n). */
  function CheckIndex(n: int, index: int): (o: Outcome)
    ensures o.Pass? <==> 0 <= index < n
    ensures o.Fail? ==> o.error == IndexError
  {
    if !(0 <= index < n) then Fail(IndexError) else Pass
  }

  /** `query` checks both bounds before their order: an out-of-range bound is
      an IndexError even when left > right. */
  function CheckRange(n: int, left: int, right: int): (o: Outcome)
    ensures o.Pass? <==> 0 <= left <= right < n
    ensures o == Fail(IndexError) <==> !(0 <= left < n) || !(0 <= right < n)
    ensures o == Fail(ValueError) <==> 0 <= left < n && 0 <= right < n && left > right
  {
    if !(0 <= left < n) || !(0 <= right < n) then Fail(IndexError)
    else if left > right then Fail(ValueError)
    else Pass
  }
}
