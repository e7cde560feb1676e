/** `maxVal` and the `foo` / `bar` / `baz` exception flow of
    lectures/week_3/code/exception.cpp.  A thrown exception is a `Throws`
    result; lines written to `std::cout` are collected in a sequence. */
module Exceptions {
  import opened Machine

  const EmptyMessage := "Cannot compute maximum of an empty vector!"

  /** The largest element of a non-empty vector. */
  function MaxElement(v: seq<int32>): (m: int32)
    requires |v| > 0
    ensures m in v && forall k | 0 <= k < |v| :: v[k] <= m
  {
    if |v| == 1 then v[0]
    else
      var m := MaxElement(v[..|v| - 1]);
      assert forall k | 0 <= k < |v| - 1 :: v[..|v| - 1][k] == v[k];
      if v[|v| - 1] > m then v[|v| - 1] else m
  }

  /** `maxVal`: invalid_argument for an empty vector; otherwise the loop
      raises `max`, which starts at the sentinel -1000. */
  method MaxVal(vec: seq<int32>) returns (r: Result<int32>)
    ensures r.Throws? <==> vec == []
    ensures r.Throws? ==> r.ex == InvalidArgument(EmptyMessage)
    ensures r.Ok? ==> forall k | 0 <= k < |vec| :: vec[k] <= r.value
    ensures r.Ok? ==> r.value == if MaxElement(vec) > -1000 then MaxElement(vec) else -1000
    ensures r.Ok? && (exists k | 0 <= k < |vec| :: vec[k] >= -1000) ==> r.value in vec
  {
    if vec == [] {
      return Throws(InvalidArgument(EmptyMessage));
    }
    var max: int32 := -1000;
    for i := 0 to |vec|
      invariant i > 0 ==> max == if MaxElement(vec[..i]) > -1000 then MaxElement(vec[..i]) else -1000
      invariant i == 0 ==> max == -1000
    {
      MaxElementStep(vec, i);
      if vec[i] > max {
        max := vec[i];
      }
    }
    assert vec[..|vec|] == vec;
    return Ok(max);
  }

  /** The largest element of a prefix one longer. */
  lemma MaxElementStep(vec: seq<int32>, i: nat)
    requires i < |vec|
    ensures MaxElement(vec[..i + 1]) == if i == 0 || vec[i] > MaxElement(vec[..i]) then vec[i] else MaxElement(vec[..i])
  {
    assert vec[..i + 1][..i] == vec[..i];
  }

  /** A vector whose elements all lie below the sentinel gets the sentinel,
      which is not one of its elements. */
  method MaxValBelowSentinel() returns (r: Result<int32>)
    ensures r == Ok(-1000) && r.value !in [-2000]
  {
    r := MaxVal([-2000]);
  }

  /** `maxVal` with `max` started at the first element: the result is then
      always the largest element. */
  method MaxValFromFirst(vec: seq<int32>) returns (r: Result<int32>)
    ensures r.Throws? <==> vec == []
    ensures r.Throws? ==> r.ex == InvalidArgument(EmptyMessage)
    ensures r.Ok? ==> r.value == MaxElement(vec) && r.value in vec
  {
    if vec == [] {
      return Throws(InvalidArgument(EmptyMessage));
    }
    var max := vec[0];
    for i := 1 to |vec|
      invariant max == MaxElement(vec[..i])
    {
      assert vec[..i + 1][..i] == vec[..i];
      if vec[i] > max {
        max := vec[i];
      }
    }
    assert vec[..|vec|] == vec;
    return Ok(max);
  }

  /** `what()` of a standard exception (the library's own text for
      out_of_range is implementation-defined and never printed here). */
  function What(e: Exception): string
  {
    match e
    case OutOfRange => "out_of_range"
    case InvalidArgument(w) => w
    case RuntimeError(w) => w
  }

  /** `foo`: always throws runtime_error("Error 1"). */
  method Foo() returns (r: Result<()>)
    ensures r == Throws(RuntimeError("Error 1"))
  {
    return Throws(RuntimeError("Error 1"));
  }

  /** `bar`: catches whatever `foo` throws and prints its `what()`, then
      throws runtime_error("Error 2") when `a` is 2. */
  method Bar(a: int32, out: seq<string>) returns (out': seq<string>, r: Result<()>)
    ensures out' == out + ["Error 1"]
    ensures r.Throws? <==> a == 2
    ensures r.Throws? ==> r.ex == RuntimeError("Error 2")
  {
    out' := out;
    var f := Foo();
    if f.Throws? {
      out' := out' + [What(f.ex)];
    }
    if a == 2 {
      return out', Throws(RuntimeError("Error 2"));
    }
    return out', Ok(());
  }

  /** `baz`: `bar(i)` for i = 0 .. 7, until one of them throws; the
      exception leaves `baz`.  `calls` lists the arguments `bar` received. */
  method Baz(out: seq<string>) returns (out': seq<string>, r: Result<()>, calls: seq<int32>)
    ensures calls == [0, 1, 2]
    ensures out' == out + ["Error 1", "Error 1", "Error 1"]
    ensures r == Throws(RuntimeError("Error 2"))
  {
    out', r, calls := out, Ok(()), [];
    var i: int32 := 0;
    while i < 8 && r.Ok?
      invariant 0 <= i <= 3
      invariant r.Ok? ==> i <= 2
      invariant r.Throws? ==> i == 3 && r == Throws(RuntimeError("Error 2"))
      invariant |calls| == i as int && forall k | 0 <= k < |calls| :: calls[k] == k as int32
      invariant |out'| == |out| + i as int && out'[..|out|] == out
      invariant forall k | |out| <= k < |out'| :: out'[k] == "Error 1"
      decreases 8 - i as int, if r.Ok? then 1 else 0
    {
      out', r := Bar(i, out');
      calls := calls + [i];
      i := i + 1;
    }
  }

  /** main: `baz` escapes with "Error 2", which main catches and prints. */
  method ExceptionsDemo() returns (out: seq<string>)
    ensures out == ["Error 1", "Error 1", "Error 1", "Error 2"]
  {
    var r, calls;
    out, r, calls := Baz([]);
    if r.Throws? && r.ex.RuntimeError? {
      out := out + [What(r.ex)];
    }
  }
}
