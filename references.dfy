/** `swap` of lectures/week_1/code/references.cpp.  Its two `int&`
    parameters are the method's inputs and, primed, its outputs. */
module References {
  import opened Machine

  /** `swap(a, b)`: through a temporary, each reference receives the
      other's value. */
  method Swap(a: int32, b: int32) returns (a': int32, b': int32)
    ensures a' == b && b' == a
  {
    a', b' := a, b;
    var t := a';
    a' := b';
    b' := t;
  }

  /** main of references.cpp: x = 0, y = 1 become x = 1, y = 0; swapping
      twice restores both, and swapping a value with itself keeps it. */
  method SwapDemo(p: int32, q: int32) returns (x: int32, y: int32, back: bool, self: bool)
    ensures x == 1 && y == 0 && back && self
  {
    x, y := Swap(0, 1);
    var p1, q1 := Swap(p, q);
    var p2, q2 := Swap(p1, q1);
    back := p2 == p && q2 == q;
    var s1, s2 := Swap(p, p);
    self := s1 == p && s2 == p;
  }
}
