/** The searches over filter values and multi-value attributes (src/sphinxfilter.cpp). */
module FilterSearch {
  import opened Vectors

  /** A list of filter values; Unset until SetValues is called (a null m_pValues). */
  datatype Values = Unset | Given(list: seq<int>)
  {
    /** What SetValues asserts. */
    ghost predicate Valid() {
      Given? ==> list != [] && Sorted(list)
    }
  }

  /** An unset list lets every value through. */
  method EvalValues(values: Values, v: int) returns (pass: bool)
    requires values.Valid()
    ensures pass <==> values.Unset? || v in values.list
  {
    if values.Unset? {
      return true;
    }
    var a := values.list;
    var lo, hi := 0, |a| - 1;
    if v == a[lo] || v == a[hi] {
      return true;
    }
    if v < a[lo] || v > a[hi] {
      return false;
    }
    while hi - lo > 1
      invariant 0 <= lo <= hi < |a| && a[lo] < v < a[hi]
      decreases hi - lo
    {
      var mid := lo + (hi - lo) / 2;
      if v == a[mid] {
        return true;
      }
      if v < a[mid] {
        hi := mid;
      } else {
        lo := mid;
      }
    }
    assert forall k :: 0 <= k < |a| ==> a[k] <= a[lo] || a[hi] <= a[k];
    pass := false;
  }

  /** Some value lies inside the block; an unset list has no values. */
  method EvalBlockValues(values: Values, blockMin: int, blockMax: int) returns (pass: bool)
    ensures pass <==> values.Given? && exists v <- values.list :: blockMin <= v <= blockMax
  {
    pass := false;
    if values.Given? {
      for i := 0 to |values.list|
        invariant forall k :: 0 <= k < i ==> !(blockMin <= values.list[k] <= blockMax)
      {
        if values.list[i] >= blockMin && values.list[i] <= blockMax {
          assert values.list[i] in values.list;
          return true;
        }
      }
    }
  }

  /** One binary search per filter value; the left bound is carried over to the next
      value, the right bound is reset. */
  method MvaValuesEval(filter: seq<int>, mva: seq<int>) returns (pass: bool)
    requires Sorted(filter) && Sorted(mva)
    ensures pass <==> exists v <- filter :: v in mva
  {
    var left, right := 0, |mva| - 1;
    for f := 0 to |filter|
      invariant 0 <= left <= |mva| && right == |mva| - 1
      invariant forall k :: 0 <= k < f ==> filter[k] !in mva
      invariant forall k :: 0 <= k < left ==> f > 0 && mva[k] < filter[f - 1]
    {
      while left <= right
        invariant 0 <= left <= right + 1 <= |mva|
        invariant forall k :: 0 <= k < left ==> mva[k] < filter[f]
        invariant forall k :: right < k < |mva| ==> filter[f] < mva[k]
        decreases right - left
      {
        var m := left + (right - left) / 2;
        if filter[f] > mva[m] {
          left := m + 1;
        } else if filter[f] < mva[m] {
          right := m - 1;
        } else {
          assert filter[f] in filter;
          return true;
        }
      }
      right := |mva| - 1;
    }
    pass := false;
  }

  /** What the range search answers: on an exact hit of the minimum it looks no further
      than whether another element follows. */
  ghost predicate RangeAnswer(mva: seq<int>, min: int, max: int, hasEqual: bool) {
    if min in mva then hasEqual || exists x <- mva :: min < x
    else exists x <- mva :: min < x && if hasEqual then x <= max else x < max
  }

  ghost predicate SomeInRange(mva: seq<int>, min: int, max: int, hasEqual: bool) {
    exists x <- mva :: if hasEqual then min <= x <= max else min < x < max
  }

  method MvaRangeEval(mva: seq<int>, min: int, max: int, hasEqual: bool) returns (pass: bool)
    requires Ascending(mva)
    ensures pass <==> RangeAnswer(mva, min, max, hasEqual)
  {
    var left, right := 0, |mva| - 1;
    while left <= right
      invariant 0 <= left <= right + 1 <= |mva|
      invariant forall k :: 0 <= k < left ==> mva[k] < min
      invariant forall k :: right < k < |mva| ==> min < mva[k]
      decreases right - left
    {
      var m := left + (right - left) / 2;
      if min > mva[m] {
        left := m + 1;
      } else if min < mva[m] {
        right := m - 1;
      } else {
        if m + 1 < |mva| {
          assert mva[m + 1] in mva && min < mva[m + 1];
        }
        return hasEqual || m + 1 < |mva|;
      }
    }
    if left == |mva| {
      return false;
    }
    assert mva[left] in mva;
    if hasEqual {
      pass := mva[left] <= max;
    } else {
      pass := mva[left] < max;
    }
  }

  /** The inclusive search is exact unless the range is reversed and its minimum is hit. */
  lemma InclusiveExact(mva: seq<int>, min: int, max: int)
    ensures (RangeAnswer(mva, min, max, true) <==> SomeInRange(mva, min, max, true))
       <==> (min <= max || min !in mva)
  {
    if min in mva && min <= max {
      assert SomeInRange(mva, min, max, true);
    }
  }

  /** The exclusive search is exact unless the minimum is hit and the element after it,
      if there is one, is already past the range. */
  lemma ExclusiveExact(mva: seq<int>, min: int, max: int)
    requires Ascending(mva)
    ensures (RangeAnswer(mva, min, max, false) <==> SomeInRange(mva, min, max, false))
       <==> forall k :: 0 <= k < |mva| - 1 && mva[k] == min ==> mva[k + 1] < max
  {
    if min in mva {
      var k :| 0 <= k < |mva| && mva[k] == min;
      if k + 1 < |mva| {
        assert mva[k + 1] in mva && min < mva[k + 1];
        if mva[k + 1] < max {
          assert SomeInRange(mva, min, max, false);
        }
      }
    }
  }

  /** A hit of the minimum with only larger values past the maximum is let through. */
  lemma ExclusiveFails()
    ensures RangeAnswer([1, 9], 1, 5, false) && !SomeInRange([1, 9], 1, 5, false)
  {
    assert [1, 9][0] == 1 && [1, 9][1] == 9 && 9 in [1, 9];
  }
}
