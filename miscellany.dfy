/** Two examples of lectures/week_11/code/miscellany.cpp: the lambda that
    concatenates a vector of strings, and `Widget`, whose `doSomething`
    increments a member through a lambda capturing `this`. */
module Miscellany {
  import opened Seqs
  import opened Machine

  /** The lambda with the explicit `std::string` return: "" for an empty
      vector, otherwise every word appended in order. */
  method ConcatWords(vec: seq<string>) returns (str: string)
    ensures str == Concat(vec)
    ensures |str| == TotalLength(vec)
    ensures vec == [] ==> str == ""
  {
    if vec == [] {
      return "";
    }
    str := "";
    for i := 0 to |vec|
      invariant str == Concat(vec[..i])
    {
      assert vec[..i + 1][..i] == vec[..i];
      str := str + vec[i];
    }
    assert vec[..|vec|] == vec;
    ConcatLength(vec);
  }

  class Widget {
    var mNum: int32

    /** `Widget()`: `mNum` starts at 0. */
    constructor ()
      ensures mNum == 0
    {
      mNum := 0;
    }

    /** `doSomething`: the captured `this` lets the lambda increment `mNum`
        once.  Signed overflow is undefined, so `mNum` must be below the
        largest `int`. */
    method DoSomething()
      requires mNum < 0x7fff_ffff
      modifies this
      ensures mNum == old(mNum) + 1
    {
      mNum := mNum + 1;
    }
  }

  /** main of miscellany.cpp: {"h", "e", "l", "l", "o"} gives "hello", and
      a fresh widget holds 1 after one `doSomething`. */
  method MiscellanyDemo() returns (result: string, num: int32)
    ensures result == "hello" && num == 1
  {
    var vec := ["h", "e", "l", "l", "o"];
    result := ConcatWords(vec);
    assert vec[..1] == ["h"] && Concat(vec[..1]) == "h";
    assert vec[..2][..1] == vec[..1] && Concat(vec[..2]) == "he";
    assert vec[..3][..2] == vec[..2] && Concat(vec[..3]) == "hel";
    assert vec[..4][..3] == vec[..3] && Concat(vec[..4]) == "hell";
    assert vec[..4] == vec[..|vec| - 1];
    var w := new Widget();
    w.DoSomething();
    num := w.mNum;
  }
}
