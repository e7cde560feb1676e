/** `strip` of lectures/week_2/code/strip.cpp: shrink every run of
    delimiters to a single delimiter.  The `split` of that file is
    Splitting.Split. */
module Stripping {
  import opened Seqs
  import opened Splitting

  /** The string `strip(s, d)` returns.  Reading one more character `c`:
      a non-delimiter is kept; a delimiter is kept only if the previous
      character was not one (the loop's `isDelim` flag). */
  function Strip(s: string, d: char): string
  {
    if s == [] then []
    else
      var p, c := s[..|s| - 1], s[|s| - 1];
      if c != d then Strip(p, d) + [c]
      else if EndsInDelim(p, d) then Strip(p, d)
      else Strip(p, d) + [d]
  }

  lemma StripSnoc(p: string, c: char, d: char)
    ensures Strip(p + [c], d) ==
      if c != d then Strip(p, d) + [c]
      else if EndsInDelim(p, d) then Strip(p, d)
      else Strip(p, d) + [d]
  {
    assert (p + [c])[..|p|] == p;
  }

  /** The character loop of strip.cpp. */
  method StripLine(line: string, delim: char) returns (result: string)
    ensures result == Strip(line, delim)
  {
    result := "";
    var isDelim := false;
    for i := 0 to |line|
      invariant isDelim == EndsInDelim(line[..i], delim)
      invariant result == Strip(line[..i], delim)
    {
      var ch := line[i];
      assert line[..i + 1] == line[..i] + [ch];
      StripSnoc(line[..i], ch, delim);
      if ch != delim {
        result := result + [ch];
        isDelim := false;
      } else if !isDelim {
        isDelim := true;
        result := result + [ch];
      }
    }
    assert line[..|line|] == line;
  }

  /** No two neighbouring characters are both the delimiter. */
  predicate NoAdjacentDelims(t: string, d: char)
  {
    forall i | 0 <= i < |t| - 1 :: !(t[i] == d && t[i + 1] == d)
  }

  /** Strip keeps the input's first character and whether it ends in the
      delimiter, and only the empty input strips to the empty string. */
  lemma {:induction false} StripEnds(s: string, d: char)
    ensures Strip(s, d) == [] <==> s == []
    ensures s != [] ==> Strip(s, d)[0] == s[0]
    ensures EndsInDelim(Strip(s, d), d) == EndsInDelim(s, d)
    decreases |s|
  {
    if s != [] {
      var p := s[..|s| - 1];
      StripEnds(p, d);
      if p != [] {
        assert p[0] == s[0];
      }
    }
  }

  /** The result never holds two adjacent delimiters. */
  lemma {:induction false} StripNoAdjacent(s: string, d: char)
    ensures NoAdjacentDelims(Strip(s, d), d)
    decreases |s|
  {
    if s != [] {
      var p := s[..|s| - 1];
      StripNoAdjacent(p, d);
      StripEnds(p, d);
    }
  }

  /** Every non-delimiter character is kept, in order. */
  lemma {:induction false} StripKeepsOthers(s: string, d: char)
    ensures RemoveAll(Strip(s, d), d) == RemoveAll(s, d)
    decreases |s|
  {
    if s != [] {
      var p, c := s[..|s| - 1], s[|s| - 1];
      StripKeepsOthers(p, d);
      if c != d || !EndsInDelim(p, d) {
        RemoveAllAppend(Strip(p, d), [c], d);
        assert [c][..0] == [];
      }
    }
  }

  /** Strip never lengthens its input. */
  lemma {:induction false} StripShorter(s: string, d: char)
    ensures |Strip(s, d)| <= |s|
    decreases |s|
  {
    if s != [] {
      StripShorter(s[..|s| - 1], d);
    }
  }

  /** A string without adjacent delimiters is left as it is. */
  lemma {:induction false} StripFixpoint(s: string, d: char)
    requires NoAdjacentDelims(s, d)
    ensures Strip(s, d) == s
    decreases |s|
  {
    if s != [] {
      var p := s[..|s| - 1];
      assert NoAdjacentDelims(p, d);
      StripFixpoint(p, d);
      assert s == p + [s[|s| - 1]];
    }
  }

  /** Stripping twice is stripping once. */
  lemma StripIdempotent(s: string, d: char)
    ensures Strip(Strip(s, d), d) == Strip(s, d)
  {
    StripNoAdjacent(s, d);
    StripFixpoint(Strip(s, d), d);
  }

  /** A maximal run of delimiters (one that does not follow a delimiter),
      including a leading or a trailing one, becomes a single delimiter. */
  lemma {:induction false} StripRun(x: string, run: string, d: char)
    requires !EndsInDelim(x, d)
    requires |run| > 0 && forall k | 0 <= k < |run| :: run[k] == d
    ensures Strip(x + run, d) == Strip(x, d) + [d]
    decreases |run|
  {
    var run' := run[..|run| - 1];
    assert x + run == (x + run') + [d];
    StripSnoc(x + run', d, d);
    if run' == [] {
      assert x + run' == x;
    } else {
      StripRun(x, run', d);
      assert EndsInDelim(x + run', d);
    }
  }

  /** Delimiter-free text is copied unchanged. */
  lemma {:induction false} StripWord(x: string, w: string, d: char)
    requires d !in w
    ensures Strip(x + w, d) == Strip(x, d) + w
    decreases |w|
  {
    if w == [] {
      assert x + w == x;
    } else {
      var w' := w[..|w| - 1];
      assert x + w == (x + w') + [w[|w| - 1]];
      StripSnoc(x + w', w[|w| - 1], d);
      StripWord(x, w', d);
      assert w == w' + [w[|w| - 1]];
    }
  }

  /** Splitting the stripped line gives the same words as splitting the line. */
  lemma {:induction false} SplitOfStrip(s: string, d: char)
    ensures Split(Strip(s, d), d) == Split(s, d)
    decreases |s|
  {
    if s != [] {
      var p, c := s[..|s| - 1], s[|s| - 1];
      SplitOfStrip(p, d);
      StripEnds(p, d);
      SplitSnoc(p, c, d);
      var t := Strip(p, d);
      if c != d || !EndsInDelim(p, d) {
        SplitSnoc(t, c, d);
      }
    }
  }

  /** Three delimiter-free words separated by two delimiter runs. */
  lemma SplitThreeWords(a: string, r1: string, b: string, r2: string, c: string, d: char)
    requires d !in a && |b| > 0 && d !in b && |c| > 0 && d !in c
    requires |r1| > 0 && forall k | 0 <= k < |r1| :: r1[k] == d
    requires |r2| > 0 && forall k | 0 <= k < |r2| :: r2[k] == d
    ensures Split(a + r1 + b + r2 + c, d) == [a, b, c]
  {
    SplitWithoutDelim(a, d);
    SplitJoin(a, r1, b, d);
    SplitJoin(a + r1 + b, r2, c, d);
  }

  /** main of strip.cpp: the words of the stripped sentence. */
  method StripDemo() returns (words: seq<string>)
    ensures words == ["Yay", "it's", "Friday!"]
  {
    // "Yay    it's     Friday!", written as its words and delimiter runs
    var text := "Yay" + "    " + "it's" + "     " + "Friday!";
    var stripped := StripLine(text, ' ');
    words := SplitWords(stripped, ' ');
    SplitOfStrip(text, ' ');
    SplitThreeWords("Yay", "    ", "it's", "     ", "Friday!", ' ');
  }
}
