/** `why` and `madness` of lectures/week_2/code/tracing.cpp.  `num1` is
    passed by reference (an input and, primed, an output); `num2` is a
    copy, so the caller's value never changes.  `int` arithmetic must not
    overflow, which the preconditions state. */
module Tracing {
  import opened Machine

  /** `why(a)`: four times `a`. */
  function Why(a: int32): (r: int32)
    requires -0x2000_0000 <= a < 0x2000_0000
    ensures r as int == 4 * a as int
    ensures r % 4 == 0
  {
    a * 4
  }

  /** `madness(num1, num2)`: `num1` becomes its old value plus `why` of the
      sum, i.e. five times `num1` plus four times `num2`. */
  method Madness(num1: int32, num2: int32) returns (num1': int32)
    requires -0x2000_0000 <= num1 as int + num2 as int < 0x2000_0000
    requires -0x8000_0000 <= 5 * num1 as int + 4 * num2 as int < 0x8000_0000
    ensures num1' as int == 5 * num1 as int + 4 * num2 as int
  {
    num1' := num1;
    var n2 := num2;
    var tmp := num1';
    num1' := num1' + n2;
    n2 := Why(num1');
    num1' := tmp + n2;
  }

  /** main of tracing.cpp: x = 10, y = 16 become x = 114, y = 16. */
  method TracingDemo() returns (x: int32, y: int32)
    ensures x == 114 && y == 16
  {
    x, y := 10, 16;
    x := Madness(x, y);
  }
}
