/** `repeats` of lectures/week_4/code/q8.cpp: does some word occur twice? */
module RepeatCheck {

  /** Two different positions hold the same word (exact, case-sensitive equality). */
  predicate HasRepeat(words: seq<string>)
  {
    exists i, k | 0 <= i < |words| && 0 <= k < |words| :: i != k && words[i] == words[k]
  }

  /** The nested index loops, returning as soon as a pair is found. */
  method Repeats(words: seq<string>) returns (found: bool)
    ensures found <==> HasRepeat(words)
    ensures |words| <= 1 ==> !found
  {
    for i := 0 to |words|
      invariant forall i', k | 0 <= i' < i && 0 <= k < |words| && i' != k :: words[i'] != words[k]
    {
      for k := 0 to |words|
        invariant forall k' | 0 <= k' < k && i != k' :: words[i] != words[k']
      {
        if i == k {
          continue;
        }
        if words[i] == words[k] {
          return true;
        }
      }
    }
    return false;
  }

  /** main of q8.cpp: "Some" and "some" differ, so only the second text repeats. */
  method RepeatCheckDemo() returns (rep1: bool, rep2: bool)
    ensures !rep1 && rep2
  {
    var text1 := ["Some", "random", "text", "again"];
    var text2 := ["some", "random", "some", "text"];
    rep1 := Repeats(text1);
    rep2 := Repeats(text2);
    assert text2[0] == text2[2];
  }
}
