/** The accumulation templates and `abs` of lectures/week_12/code/problems.cpp. */
module Folds {
  import opened Machine

  /** The left fold: `f` applied to the running result and each element in turn. */
  function FoldLeft<T, U>(f: (U, T) -> U, init: U, data: seq<T>): U
  {
    if data == [] then init else f(FoldLeft(f, init, data[..|data| - 1]), data[|data| - 1])
  }

  /** Folding a concatenation folds the second part from the first part's result. */
  lemma {:induction false} FoldLeftAppend<T, U>(f: (U, T) -> U, init: U, a: seq<T>, b: seq<T>)
    ensures FoldLeft(f, init, a + b) == FoldLeft(f, FoldLeft(f, init, a), b)
    decreases |b|
  {
    if b == [] {
      assert a + b == a;
    } else {
      assert (a + b)[..|a + b| - 1] == a + b[..|b| - 1];
      FoldLeftAppend(f, init, a, b[..|b| - 1]);
    }
  }

  /** The first element is combined with `init` first. */
  lemma FoldLeftCons<T, U>(f: (U, T) -> U, init: U, x: T, s: seq<T>)
    ensures FoldLeft(f, init, [x] + s) == FoldLeft(f, f(init, x), s)
  {
    FoldLeftAppend(f, init, [x], s);
    assert [x][..0] == [];
  }

  /** `acculumate`: `result = f(result, elem)` over the data, from `init`. */
  method Accumulate<T, U>(data: seq<T>, f: (U, T) -> U, init: U) returns (result: U)
    ensures result == FoldLeft(f, init, data)
    ensures data == [] ==> result == init
  {
    result := init;
    for i := 0 to |data|
      invariant result == FoldLeft(f, init, data[..i])
    {
      assert data[..i + 1][..i] == data[..i];
      result := f(result, data[i]);
    }
    assert data[..|data|] == data;
  }

  /** `accumulate2` and `accumulate3`: the same loop from the value-initialised
      element, which is 0 for the `int` vectors they are used with.  The two
      differ only in how the return type is spelled. */
  method AccumulateFromZero(data: seq<int>, f: (int, int) -> int) returns (result: int)
    ensures result == FoldLeft(f, 0, data)
    ensures data == [] ==> result == 0
  {
    result := 0;
    for i := 0 to |data|
      invariant result == FoldLeft(f, 0, data[..i])
    {
      assert data[..i + 1][..i] == data[..i];
      result := f(result, data[i]);
    }
    assert data[..|data|] == data;
  }

  /** `abs` over `int`; the most negative `int` has no negation and is excluded. */
  function Abs(x: int32): (r: int32)
    requires x != -0x8000_0000
    ensures r >= 0 && (r == x || r == -x)
    ensures x < 0 ==> r == -x
  {
    if x < 0 then -x else x
  }

  /** main of problems.cpp: summing {1, 2, 3, 4} gives 10 all three ways. */
  method FoldsDemo() returns (a: int, b: int)
    ensures a == 10 && b == 10
  {
    var data := [1, 2, 3, 4];
    var sum := (x: int, y: int) => x + y;
    a := Accumulate(data, sum, 0);
    b := AccumulateFromZero(data, sum);
    assert data[..1][..0] == [];
    assert FoldLeft(sum, 0, data[..1]) == 1;
    assert data[..2][..1] == data[..1];
    assert FoldLeft(sum, 0, data[..2]) == 3;
    assert data[..3][..2] == data[..2];
    assert FoldLeft(sum, 0, data[..3]) == 6;
    assert data[..3] == data[..|data| - 1];
  }
}
