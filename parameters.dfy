/** The exercise of ice/code/ice03.cpp: `madness`, `into` and `descend`
    pass `int`s by value and by reference and print as they go.  Each
    reference parameter is an input and, primed, an output; each printed
    line is returned as the list of the numbers on it. */
module Parameters {
  import opened Machine

  /** `madness(a, b)`: when `b` exceeds 10, a new local `a` shadows the
      parameter and `b` takes `b + 6`; `a` itself is never changed.  Prints
      `a` and the new `b`. */
  method Madness(a: int32, b: int32) returns (a': int32, b': int32, line: seq<int32>)
    requires b as int + 6 < 0x8000_0000
    ensures a' == a
    ensures b > 10 ==> b' as int == b as int + 6
    ensures b <= 10 ==> b' == b
    ensures line == [a, b']
  {
    a', b' := a, b;
    if b' > 10 {
      var a := b' + 6;
      b' := a;
    }
    line := [a', b'];
  }

  /** `into(x, y)`: the copy `x` grows by 10 and `y` takes it; `madness`
      then acts on the local `x` and on `y`, and the final `++x` is local.
      Overflow-freedom of `x + 16` covers every addition. */
  method Into(x: int32, y: int32) returns (y': int32, out: seq<seq<int32>>)
    requires x as int + 16 < 0x8000_0000
    ensures y' as int == if x > 0 then x as int + 16 else x as int + 10
    ensures out == [[x + 10, x + 10], [x + 10, y']]
  {
    var x := x;
    y' := y;
    x := x + 10;
    y' := x;
    var line0 := [x, y'];
    var line1;
    x, y', line1 := Madness(x, y');
    x := x + 1;
    out := [line0, line1];
  }

  /** `descend(a, b)`: `into` gets a copy of `a` and a reference to the
      local copy `b`; `a` is left as it was, and the final `b` is printed
      after the lines of `into` and returned. */
  method Descend(a: int32, b: int32) returns (r: int32, a': int32, out: seq<seq<int32>>)
    requires a as int + 16 < 0x8000_0000
    ensures a' == a
    ensures r as int == if a > 0 then a as int + 16 else a as int + 10
    ensures out == [[a + 10, a + 10], [a + 10, r], [a, r]]
  {
    a' := a;
    var b' := b;
    var lines;
    b', lines := Into(a', b');
    out := lines + [[a', b']];
    r := b';
  }

  /** main of ice03.cpp: x = 11, y = 137, z = 401.  `descend(y, z)` prints
      147 147, 147 153 and 137 153 and returns 153 into `x`; then main prints
      153 and 137 401. */
  method ParametersDemo() returns (x: int32, y: int32, z: int32, out: seq<seq<int32>>)
    ensures x == 153 && y == 137 && z == 401
    ensures out == [[147, 147], [147, 153], [137, 153], [153], [137, 401]]
  {
    x, y, z := 11, 137, 401;
    x, y, out := Descend(y, z);
    out := out + [[x], [y, z]];
  }
}
