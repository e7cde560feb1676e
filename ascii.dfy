/** The `<cctype>` classification and case mapping the sources call, with
    their "C" locale (ASCII) meaning: only 'A'..'Z' and 'a'..'z' are
    letters, and every other character maps to itself. */
module Ascii {

  predicate IsUpper(c: char)
  {
    'A' <= c <= 'Z'
  }

  predicate IsLower(c: char)
  {
    'a' <= c <= 'z'
  }

  /** `std::tolower`. */
  function ToLower(c: char): (r: char)
    ensures IsUpper(c) ==> IsLower(r) && r as int == c as int + 32
    ensures !IsUpper(c) ==> r == c
    ensures !IsUpper(r)
  {
    if IsUpper(c) then (c as int + 32) as char else c
  }

  /** `std::toupper`. */
  function ToUpper(c: char): (r: char)
    ensures IsLower(c) ==> IsUpper(r) && r as int == c as int - 32
    ensures !IsLower(c) ==> r == c
    ensures !IsLower(r)
  {
    if IsLower(c) then (c as int - 32) as char else c
  }

  /** The branch of `invertCaps` applied to one character. */
  function InvertCase(c: char): (r: char)
    ensures IsUpper(c) <==> IsLower(r)
    ensures IsLower(c) <==> IsUpper(r)
    ensures !IsUpper(c) && !IsLower(c) ==> r == c
  {
    if IsUpper(c) then ToLower(c) else if IsLower(c) then ToUpper(c) else c
  }
}
