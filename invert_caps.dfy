/** `invertCaps` of lectures/week_4/code/q2.cpp: swap the case of every
    letter of every word, in place in the caller's vector. */
module InvertCaps {
  import opened Ascii

  /** A word with the case of each of its letters swapped. */
  function InvertWord(w: string): (r: string)
    ensures |r| == |w|
    ensures forall j | 0 <= j < |w| :: r[j] == InvertCase(w[j])
  {
    if w == [] then [] else InvertWord(w[..|w| - 1]) + [InvertCase(w[|w| - 1])]
  }

  /** The words, each inverted. */
  function InvertAll(ws: seq<string>): (r: seq<string>)
    ensures |r| == |ws|
    ensures forall i | 0 <= i < |ws| :: r[i] == InvertWord(ws[i])
  {
    if ws == [] then [] else InvertAll(ws[..|ws| - 1]) + [InvertWord(ws[|ws| - 1])]
  }

  /** The two reference loops: each character of each word is rewritten in place. */
  method InvertCapsInPlace(words: array<string>)
    modifies words
    ensures words[..] == InvertAll(old(words[..]))
  {
    for i := 0 to words.Length
      invariant forall k | 0 <= k < i :: words[k] == InvertWord(old(words[k]))
      invariant forall k | i <= k < words.Length :: words[k] == old(words[k])
    {
      var word := words[i];
      for j := 0 to |word|
        invariant |word| == |words[i]|
        invariant forall m | 0 <= m < j :: word[m] == InvertCase(words[i][m])
        invariant forall m | j <= m < |word| :: word[m] == words[i][m]
      {
        var ch := word[j];
        if IsUpper(ch) {
          ch := ToLower(ch);
        } else if IsLower(ch) {
          ch := ToUpper(ch);
        }
        word := word[j := ch];
      }
      words[i] := word;
    }
  }

  /** Count and lengths are kept, letters swap case, non-letters stay. */
  lemma InvertShape(ws: seq<string>, i: nat, j: nat)
    requires i < |ws| && j < |ws[i]|
    ensures |InvertAll(ws)| == |ws| && |InvertAll(ws)[i]| == |ws[i]|
    ensures IsUpper(ws[i][j]) ==> InvertAll(ws)[i][j] == ToLower(ws[i][j])
    ensures IsLower(ws[i][j]) ==> InvertAll(ws)[i][j] == ToUpper(ws[i][j])
    ensures !IsUpper(ws[i][j]) && !IsLower(ws[i][j]) ==> InvertAll(ws)[i][j] == ws[i][j]
  {
  }

  /** Inverting twice restores every word. */
  lemma {:induction false} InvertWordInvolution(w: string)
    ensures InvertWord(InvertWord(w)) == w
  {
    var r := InvertWord(InvertWord(w));
    forall j | 0 <= j < |w|
      ensures r[j] == w[j]
    {
      CharInvolution(w[j]);
    }
  }

  lemma CharInvolution(c: char)
    ensures InvertCase(InvertCase(c)) == c
  {
  }

  lemma InvertAllInvolution(ws: seq<string>)
    ensures InvertAll(InvertAll(ws)) == ws
  {
    forall i | 0 <= i < |ws|
      ensures InvertAll(InvertAll(ws))[i] == ws[i]
    {
      InvertWordInvolution(ws[i]);
    }
  }

  /** The three words of main of q2.cpp, inverted. */
  lemma MainWords()
    ensures InvertWord("HeLlO") == "hElLo"
    ensures InvertWord("wOrLd") == "WoRlD"
    ensures InvertWord("AgAiN") == "aGaIn"
  {
  }

  /** main of q2.cpp. */
  method InvertCapsDemo() returns (result: seq<string>)
    ensures result == ["hElLo", "WoRlD", "aGaIn"]
  {
    var words := new string[3]["HeLlO", "wOrLd", "AgAiN"];
    InvertCapsInPlace(words);
    result := words[..];
    MainWords();
  }
}
