/** `sumLessThan` and `sumLessThanR` of ice/code/ice10.cpp: the sum of the
    elements of a vector that are strictly less than a bound. */
module SumLess {
  import opened Seqs
  import opened Search

  /** One more element adds itself to the sum exactly when it is below the bound. */
  lemma SumBelowSnoc(p: seq<int>, x: int, n: int)
    ensures Sum(Below(p + [x], n)) == Sum(Below(p, n)) + if x < n then x else 0
  {
    assert (p + [x])[..|p|] == p;
    var tail: seq<int> := if x < n then [x] else [];
    SumAppend(Below(p, n), tail);
    assert tail == [] || tail[..0] == [];
  }

  /** `sumLessThan`: the `forEach` pass adds `x` when `x < n` and 0 otherwise. */
  method SumLessThan(data: seq<int>, n: int) returns (sum: int)
    ensures sum == Sum(Below(data, n))
  {
    sum := 0;
    for i := 0 to |data|
      invariant sum == Sum(Below(data[..i], n))
    {
      var x := data[i];
      assert data[..i + 1] == data[..i] + [x];
      SumBelowSnoc(data[..i], x, n);
      sum := sum + if x < n then x else 0;
    }
    assert data[..|data|] == data;
  }

  /** `sumLessThanR`: take the back element if it is below `n`, drop it and
      recurse on the shorter copy.  The vector is a value, so the caller's
      vector is not affected by the `pop_back`. */
  function SumLessThanR(data: seq<int>, n: int): (r: int)
    ensures r == Sum(Below(data, n))
  {
    if data == [] then 0
    else
      var sum := if data[|data| - 1] < n then data[|data| - 1] else 0;
      assert data == data[..|data| - 1] + [data[|data| - 1]];
      SumBelowSnoc(data[..|data| - 1], data[|data| - 1], n);
      sum + SumLessThanR(data[..|data| - 1], n)
  }

  /** Elements at or above the bound contribute nothing. */
  lemma SumLessAllAbove(data: seq<int>, n: int)
    requires forall k | 0 <= k < |data| :: data[k] >= n
    ensures SumLessThanR(data, n) == 0
  {
    BelowAllOrNone(data, n);
  }

  /** Inserting an element at or above the bound anywhere does not change the sum. */
  lemma SumLessIgnoresLarge(a: seq<int>, x: int, b: seq<int>, n: int)
    requires x >= n
    ensures SumLessThanR(a + [x] + b, n) == SumLessThanR(a + b, n)
  {
    BelowAppend(a + [x], b, n);
    BelowAppend(a, [x], n);
    BelowAppend(a, b, n);
    assert [x][..0] == [];
    assert Below([x], n) == [];
    assert Below(a + [x] + b, n) == Below(a + b, n);
  }

  /** main of ice10.cpp: the empty vector gives 0 and 1..10 below 10 gives 45. */
  method SumLessDemo() returns (sum1: int, sum2: int)
    ensures sum1 == 0 && sum2 == 45
  {
    var data1: seq<int> := [];
    var data2 := [1, 2, 3, 4, 5, 6, 7, 8, 9, 10];
    sum1 := SumLessThan(data1, 10);
    sum2 := SumLessThan(data2, 10);
    OneToTenBelowTen(data2);
  }

  /** The values of main of ice10.cpp below 10 are 1..9, whose sum is 45. */
  lemma OneToTenBelowTen(data: seq<int>)
    requires data == [1, 2, 3, 4, 5, 6, 7, 8, 9, 10]
    ensures Below(data, 10) == [1, 2, 3, 4, 5, 6, 7, 8, 9] && Sum(Below(data, 10)) == 45
  {
    var low := [1, 2, 3, 4, 5, 6, 7, 8, 9];
    assert data == low + [10];
    BelowAppend(low, [10], 10);
    BelowAllOrNone(low, 10);
    BelowAllOrNone([10], 10);
    SumOneToNine(low);
  }

  lemma SumOneToNine(low: seq<int>)
    requires low == [1, 2, 3, 4, 5, 6, 7, 8, 9]
    ensures Sum(low) == 45
  {
    assert Sum(low[..1]) == 1;
    assert low[..2][..1] == low[..1];
    assert Sum(low[..2]) == 3;
    assert low[..3][..2] == low[..2];
    assert Sum(low[..3]) == 6;
    assert low[..4][..3] == low[..3];
    assert Sum(low[..4]) == 10;
    assert low[..5][..4] == low[..4];
    assert Sum(low[..5]) == 15;
    assert low[..6][..5] == low[..5];
    assert Sum(low[..6]) == 21;
    assert low[..7][..6] == low[..6];
    assert Sum(low[..7]) == 28;
    assert low[..8][..7] == low[..7];
    assert Sum(low[..8]) == 36;
    assert low[..8] == low[..|low| - 1];
  }
}
