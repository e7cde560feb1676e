/** The linear searches of lectures/week_2/code/search.cpp over a vector of ints. */
module Search {

  /** The elements of `v` strictly less than `e`, in their original order. */
  function Below(v: seq<int>, e: int): seq<int>
  {
    if v == [] then [] else Below(v[..|v| - 1], e) + (if v[|v| - 1] < e then [v[|v| - 1]] else [])
  }

  /** The positions of `v` holding a value strictly less than `e`. */
  function PositionsBelow(v: seq<int>, e: int): set<int>
  {
    set i | 0 <= i < |v| && v[i] < e
  }

  /** `findElement`: true iff `elem` occurs in `vec`; the loop returns at the first hit. */
  method FindElement(vec: seq<int>, elem: int) returns (found: bool)
    ensures found <==> elem in vec
  {
    for i := 0 to |vec|
      invariant elem !in vec[..i]
    {
      if vec[i] == elem {
        return true;
      }
      assert vec[..i + 1] == vec[..i] + [vec[i]];
    }
    assert vec[..|vec|] == vec;
    return false;
  }

  /** `countLessThan`: the number of positions holding a value below `elem`. */
  method CountLessThan(vec: seq<int>, elem: int) returns (count: int)
    ensures count == |PositionsBelow(vec, elem)|
    ensures 0 <= count <= |vec|
  {
    count := 0;
    for i := 0 to |vec|
      invariant count == |set j | 0 <= j < i && vec[j] < elem|
      invariant count <= i
    {
      var before := set j | 0 <= j < i && vec[j] < elem;
      if vec[i] < elem {
        assert (set j | 0 <= j < i + 1 && vec[j] < elem) == before + {i};
        count := count + 1;
      } else {
        assert (set j | 0 <= j < i + 1 && vec[j] < elem) == before;
      }
    }
    assert (set j | 0 <= j < |vec| && vec[j] < elem) == PositionsBelow(vec, elem);
  }

  /** `findLessThan`: the elements below `elem`, in order, with repetitions. */
  method FindLessThan(vec: seq<int>, elem: int) returns (result: seq<int>)
    ensures result == Below(vec, elem)
  {
    result := [];
    for i := 0 to |vec|
      invariant result == Below(vec[..i], elem)
    {
      assert vec[..i + 1][..i] == vec[..i];
      if vec[i] < elem {
        result := result + [vec[i]];
      }
    }
    assert vec[..|vec|] == vec;
  }

  /** Every element of the filter is below the bound, and each value below
      the bound is kept as often as it occurs. */
  lemma {:induction false} BelowExactly(v: seq<int>, e: int)
    ensures forall k | 0 <= k < |Below(v, e)| :: Below(v, e)[k] < e
    ensures forall x :: multiset(Below(v, e))[x] == if x < e then multiset(v)[x] else 0
    decreases |v|
  {
    if v != [] {
      var p := v[..|v| - 1];
      BelowExactly(p, e);
      assert v == p + [v[|v| - 1]];
    }
  }

  /** Counting and filtering agree: the count is the length of the filter. */
  lemma {:induction false} CountIsFilterLength(v: seq<int>, e: int)
    ensures |PositionsBelow(v, e)| == |Below(v, e)|
    decreases |v|
  {
    if v != [] {
      var n := |v| - 1;
      var p := v[..n];
      CountIsFilterLength(p, e);
      if v[n] < e {
        assert PositionsBelow(v, e) == PositionsBelow(p, e) + {n};
      } else {
        assert PositionsBelow(v, e) == PositionsBelow(p, e);
      }
    }
  }

  lemma {:induction false} BelowAppend(a: seq<int>, b: seq<int>, e: int)
    ensures Below(a + b, e) == Below(a, e) + Below(b, e)
    decreases |b|
  {
    if b == [] {
      assert a + b == a;
    } else {
      assert (a + b)[..|a + b| - 1] == a + b[..|b| - 1];
      BelowAppend(a, b[..|b| - 1], e);
    }
  }

  /** If every element is below the bound the filter keeps everything, and if
      none is it keeps nothing. */
  lemma {:induction false} BelowAllOrNone(v: seq<int>, e: int)
    ensures (forall k | 0 <= k < |v| :: v[k] < e) ==> Below(v, e) == v
    ensures (forall k | 0 <= k < |v| :: v[k] >= e) ==> Below(v, e) == []
    decreases |v|
  {
    if v != [] {
      BelowAllOrNone(v[..|v| - 1], e);
      assert v == v[..|v| - 1] + [v[|v| - 1]];
    }
  }

  /** The values of main of search.cpp below 7. */
  lemma BelowSevenOfTen(values: seq<int>)
    requires values == [0, 1, 2, 3, 4, 5, 6, 7, 8, 9]
    ensures Below(values, 7) == [0, 1, 2, 3, 4, 5, 6]
    ensures |PositionsBelow(values, 7)| == 7
  {
    var low, high := [0, 1, 2, 3, 4, 5, 6], [7, 8, 9];
    assert values == low + high;
    BelowAppend(low, high, 7);
    BelowAllOrNone(low, 7);
    BelowAllOrNone(high, 7);
    CountIsFilterLength(values, 7);
  }

  /** main of search.cpp on the values 0..9. */
  method SearchDemo() returns (has6: bool, has10: bool, count7: int, less7: seq<int>)
    ensures has6 && !has10 && count7 == 7 && less7 == [0, 1, 2, 3, 4, 5, 6]
  {
    var values := [0, 1, 2, 3, 4, 5, 6, 7, 8, 9];
    assert values[6] == 6;
    has6 := FindElement(values, 6);
    has10 := FindElement(values, 10);
    count7 := CountLessThan(values, 7);
    less7 := FindLessThan(values, 7);
    BelowSevenOfTen(values);
  }
}
