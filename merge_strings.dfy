/** `mergeStrings` of ice/code/ice02.cpp: concatenate the words, then lower
    the case of the result in place. */
module MergeStrings {
  import opened Seqs
  import opened Ascii

  /** `s` with every character passed through `tolower`. */
  function Lower(s: string): (r: string)
    ensures |r| == |s|
    ensures forall j | 0 <= j < |s| :: r[j] == ToLower(s[j])
  {
    if s == [] then [] else Lower(s[..|s| - 1]) + [ToLower(s[|s| - 1])]
  }

  method Merge(words: seq<string>) returns (result: string)
    ensures result == Lower(Concat(words))
    ensures |result| == TotalLength(words)
    ensures forall j | 0 <= j < |result| :: !IsUpper(result[j])
  {
    result := "";
    for i := 0 to |words|
      invariant result == Concat(words[..i])
    {
      assert words[..i + 1] == words[..i] + [words[i]];
      ConcatSnoc(words[..i], words[i]);
      result := result + words[i];
    }
    assert words[..|words|] == words;
    ghost var merged := result;
    for j := 0 to |result|
      invariant |result| == |merged|
      invariant forall k | 0 <= k < j :: result[k] == ToLower(merged[k])
      invariant forall k | j <= k < |result| :: result[k] == merged[k]
    {
      result := result[j := ToLower(result[j])];
    }
    ConcatLength(words);
  }

  /** A lowered string is left alone by lowering, so merging the merged
      string on its own gives it back. */
  lemma MergeAgainIsNoOp(words: seq<string>)
    ensures Lower(Concat([Lower(Concat(words))])) == Lower(Concat(words))
  {
    var m := Lower(Concat(words));
    assert [m][..0] == [];
    assert Concat([m]) == m;
    LowerLowered(m);
  }

  lemma LowerLowered(m: string)
    requires forall j | 0 <= j < |m| :: !IsUpper(m[j])
    ensures Lower(m) == m
  {
    assert forall j | 0 <= j < |m| :: Lower(m)[j] == m[j];
  }

  /** main of ice02.cpp. */
  method MergeDemo() returns (merge: string, nothing: string)
    ensures merge == "helloworldagain!" && nothing == ""
  {
    merge := Merge(["Hello", "World", "again!"]);
    nothing := Merge([]);
    var ws := ["Hello", "World", "again!"];
    assert ws[..1][..0] == [] && ws[..2][..1] == ws[..1] && ws[..2] == ws[..|ws| - 1];
    assert Concat(ws) == "HelloWorldagain!";
  }
}
