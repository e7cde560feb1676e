/** `fill` of lectures/week_4/code/q7.cpp: append a..b to a vector passed by
    reference.  The reference parameter is the method's in and out value. */
module Fill {
  import opened Machine

  /** The integers a, a+1, .., b (empty when a > b). */
  function Range(a: int, b: int): seq<int>
    decreases b - a
  {
    if a > b then [] else Range(a, b - 1) + [b]
  }

  lemma {:induction false} RangeShape(a: int, b: int)
    ensures |Range(a, b)| == if a <= b then b - a + 1 else 0
    ensures forall j | 0 <= j < |Range(a, b)| :: Range(a, b)[j] == a + j
    decreases b - a
  {
    if a <= b {
      RangeShape(a, b - 1);
    }
  }

  /** Consecutive ranges join into one. */
  lemma {:induction false} RangeSplit(a: int, b: int, c: int)
    requires a - 1 <= b <= c
    ensures Range(a, c) == Range(a, b) + Range(b + 1, c)
    decreases c - b
  {
    if b == c {
      assert Range(b + 1, c) == [];
    } else {
      RangeSplit(a, b, c - 1);
    }
  }

  /** The counting loop; `++i` must not pass the largest `int`, so `b` may
      be that value only when the range is empty. */
  method FillRange(vec: seq<int>, a: int32, b: int32) returns (r: seq<int>)
    requires a > b || b < 0x7fff_ffff
    ensures r == vec + Range(a as int, b as int)
    ensures r[..|vec|] == vec
    ensures |r| == |vec| + if a <= b then b as int - a as int + 1 else 0
    ensures forall j | |vec| <= j < |r| :: r[j] == a as int + (j - |vec|)
  {
    r := vec;
    var i: int32 := a;
    while i <= b
      invariant a <= b ==> a <= i <= b + 1
      invariant a > b ==> i == a
      invariant r == vec + Range(a as int, i as int - 1)
      decreases b as int - i as int
    {
      r := r + [i as int];
      i := i + 1;
    }
    RangeShape(a as int, b as int);
  }

  /** main of q7.cpp: 0..10 into an empty vector gives eleven elements. */
  method FillDemo() returns (vec: seq<int>)
    ensures vec == [0, 1, 2, 3, 4, 5, 6, 7, 8, 9, 10]
  {
    vec := FillRange([], 0, 10);
  }
}
