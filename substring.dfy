/** `substring1` and `substring2` of lectures/week_4/code/q5.cpp: two
    versions of "the characters of `str` from `start` to `end`". */
module Substrings {
  import opened Machine

  /** `std::string::substr(pos, count)`: out_of_range when `pos` is past the
      end, otherwise at most `count` characters from `pos`. */
  function Substr(str: string, pos: nat, count: nat): (r: Result<string>)
    ensures r.Throws? <==> pos > |str|
    ensures r.Throws? ==> r.ex == OutOfRange
    ensures r.Ok? ==> pos + |r.value| <= |str| && r.value == str[pos..pos + |r.value|]
    ensures r.Ok? ==> |r.value| == if count <= |str| - pos then count else |str| - pos
  {
    if pos > |str| then Throws(OutOfRange)
    else Ok(str[pos..pos + if count <= |str| - pos then count else |str| - pos])
  }

  /** The inclusive substring `substring2` is meant to build: "" for an empty
      range, out_of_range as soon as an index of the range leaves the string,
      otherwise the characters at `start` .. `end`. */
  function Inclusive(str: string, start: int, end: int): Result<string>
  {
    if end < start then Ok("")
    else if start < 0 || end >= |str| then Throws(OutOfRange)
    else Ok(str[start..end + 1])
  }

  /** `substring1`: `str.substr(start, end)` with both `int`s converted to
      `std::size_t`, so `end` counts characters and a negative `end` means
      "to the end of the string".  A `std::string` holds fewer than 2^63
      characters. */
  function Substring1(str: string, start: int32, end: int32): (r: Result<string>)
    requires |str| < SizeModulus / 2
    ensures r.Throws? <==> start < 0 || start as int > |str|
    ensures r.Ok? && end >= 0 ==> r.value == str[start..start as int + if end as int <= |str| - start as int then end as int else |str| - start as int]
    ensures r.Ok? && end < 0 ==> r.value == str[start..]
  {
    Substr(str, ToSize(start as int), ToSize(end as int))
  }

  /** `substring2`: push `str.at(i)` for `i` = `start` .. `end`; `at` throws
      out_of_range for an index outside the string (a negative `int` becomes
      a huge `std::size_t`). */
  method Substring2(str: string, start: int32, end: int32) returns (r: Result<string>)
    ensures r == Inclusive(str, start as int, end as int)
    ensures r.Ok? && start <= end ==> |r.value| == end as int - start as int + 1
  {
    var sub := "";
    var i: int := start as int;
    while i <= end as int
      invariant start as int <= i
      invariant start <= end ==> i <= end as int + 1
      invariant end < start ==> i == start as int
      invariant i > start as int ==> 0 <= start && i <= |str| && sub == str[start..i]
      invariant i == start as int ==> sub == ""
      decreases end as int - i
    {
      if i < 0 || i >= |str| {
        return Throws(OutOfRange);
      }
      sub := sub + [str[i]];
      i := i + 1;
    }
    return Ok(sub);
  }

  /** The two versions agree on an in-range call exactly when `end`, read as
      a count, happens to select `end - start + 1` characters. */
  lemma SubstringsAgree(str: string, start: int32, end: int32)
    requires |str| < SizeModulus / 2
    requires 0 <= start <= end && end as int < |str|
    ensures Substring1(str, start, end) == Inclusive(str, start as int, end as int) <==>
      (if end as int <= |str| - start as int then end as int else |str| - start as int) == end as int - start as int + 1
  {
    var a, b := Substring1(str, start, end), Inclusive(str, start as int, end as int);
    if a == b {
      assert |a.value| == |b.value|;
    }
  }

  /** In particular they agree whenever `start` is 1, as in main of q5.cpp. */
  lemma SubstringsAgreeFromOne(str: string, end: int32)
    requires |str| < SizeModulus / 2
    requires 1 <= end && end as int < |str|
    ensures Substring1(str, 1, end) == Inclusive(str, 1, end as int)
  {
    SubstringsAgree(str, 1, end);
  }

  /** For other starts `substring1` overshoots: from index 2 up to index 3 of
      "abcdef" it yields three characters where an inclusive range has two. */
  lemma Substring1Overshoots()
    ensures Substring1("abcdef", 2, 3) == Ok("cde")
    ensures Inclusive("abcdef", 2, 3) == Ok("cd")
  {
    var s := "abcdef";
    assert s[2..5] == "cde" by {
      assert s[2..5][0] == 'c' && s[2..5][1] == 'd' && s[2..5][2] == 'e';
    }
    assert s[2..4] == "cd" by {
      assert s[2..4][0] == 'c' && s[2..4][1] == 'd';
    }
  }

  /** `substring1` with the count the inclusive range needs,
      `str.substr(start, end - start + 1)`; it agrees with `substring2` on
      every in-range call. */
  function Substring1Inclusive(str: string, start: int32, end: int32): (r: Result<string>)
    requires |str| < SizeModulus / 2
    ensures 0 <= start <= end && end as int < |str| ==> r == Inclusive(str, start as int, end as int)
  {
    Substr(str, ToSize(start as int), ToSize(end as int - start as int + 1))
  }

  /** The text of main of q5.cpp, from index 1 for ten characters. */
  lemma MainText(text: string)
    requires text == "Supercalifragilisticexpialidocious"
    ensures text[1..11] == "upercalifr"
  {
    var head, middle, tail := "S", "upercalifr", "agilisticexpialidocious";
    assert text == head + middle + tail;
    assert text[|head|..|head| + |middle|] == middle;
  }

  /** main of q5.cpp: both versions give "upercalifr" for (1, 10). */
  method SubstringDemo() returns (sub1: Result<string>, sub2: Result<string>)
    ensures sub1 == sub2 == Ok("upercalifr")
  {
    var text := "Supercalifragilisticexpialidocious";
    sub1 := Substring1(text, 1, 10);
    sub2 := Substring2(text, 1, 10);
    SubstringsAgreeFromOne(text, 10);
    MainText(text);
  }
}
