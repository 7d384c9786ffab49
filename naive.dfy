/** The baseline: the list itself is the only state, and a query scans the
    range with a running minimum. */
module NaiveRmq {
  import opened RangeMinSpec

  class Naive {
    var arr: seq<int>

    ghost predicate Valid()
      reads this
    {
      |arr| > 0
    }

    constructor (s: seq<int>)
      requires |s| > 0
      ensures Valid() && arr == s
    {
      arr := s;
    }

    /** Construction as the source does it: the empty list is a ValueError. */
    static method Create(s: seq<int>) returns (r: Result<Naive>)
      ensures r.Err? <==> |s| == 0
      ensures r.Err? ==> r.error == ValueError
      ensures r.Ok? ==> fresh(r.value) && r.value.Valid() && r.value.arr == s
    {
      var check := CheckInput(s);
      if check.Fail? {
        return Err(check.error);
      }
      var t := new Naive(s);
      return Ok(t);
    }

    /** Assigns arr[index] := v; an index outside [0, n) is an IndexError and
        changes nothing. */
    method Update(index: int, v: int) returns (o: Outcome)
      requires Valid()
      modifies this
      ensures Valid()
      ensures o == CheckIndex(|old(arr)|, index)
      ensures o.Pass? ==> arr == old(arr)[index := v]
      ensures o.Fail? ==> arr == old(arr)
    {
      o := CheckIndex(|arr|, index);
      if o.Fail? {
        return;
      }
      arr := arr[index := v];
    }

    /** The minimum of arr[left..right] by a linear scan. */
    method Query(left: int, right: int) returns (r: Result<int>)
      requires Valid()
      ensures CheckRange(|arr|, left, right).Fail? ==> r == Err(CheckRange(|arr|, left, right).error)
      ensures CheckRange(|arr|, left, right).Pass? ==> r == Ok(RangeMin(arr, left, right))
    {
      var check := CheckRange(|arr|, left, right);
      if check.Fail? {
        return Err(check.error);
      }
      var currentMin := Inf;
      for i := left to right + 1
        invariant i == left ==> currentMin == Inf
        invariant i > left ==> currentMin == Fin(RangeMin(arr, left, i - 1))
      {
        if ExtLt(Fin(arr[i]), currentMin) {
          currentMin := Fin(arr[i]);
        }
      }
      return Ok(currentMin.v);
    }
  }
}
