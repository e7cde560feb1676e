/** `split` of lectures/week_2/code/split.cpp: cut a line into words at a
    delimiter character, where a run of delimiters ends at most one word.
    The same algorithm is repeated verbatim in lectures/week_2/code/strip.cpp
    and lectures/week_3/code/struct.cpp; this one model serves all three. */
module Splitting {
  import opened Seqs

  /** The loop's `isSpace` flag after it has read `p`: the last character read was the delimiter. */
  predicate EndsInDelim(p: string, d: char)
  {
    |p| > 0 && p[|p| - 1] == d
  }

  /** `ws` with `c` appended to its last word. */
  function ExtendLast(ws: seq<string>, c: char): seq<string>
    requires |ws| > 0
  {
    ws[..|ws| - 1] + [ws[|ws| - 1] + [c]]
  }

  /** The words `split(s, d)` returns.  Reading one more character `c`:
      a delimiter leaves the words as they are; a non-delimiter after a
      delimiter starts a new word; any other non-delimiter extends the last
      word (the empty word that an empty input yields counts as one). */
  function Split(s: string, d: char): (r: seq<string>)
    ensures |r| >= 1
  {
    if s == [] then [""]
    else
      var p, c := s[..|s| - 1], s[|s| - 1];
      if c == d then Split(p, d)
      else if EndsInDelim(p, d) then Split(p, d) + [[c]]
      else ExtendLast(Split(p, d), c)
  }

  /** One step of the definition, stated for an input written as `p + [c]`. */
  lemma SplitSnoc(p: string, c: char, d: char)
    ensures Split(p + [c], d) ==
      if c == d then Split(p, d)
      else if EndsInDelim(p, d) then Split(p, d) + [[c]]
      else ExtendLast(Split(p, d), c)
    ensures EndsInDelim(p + [c], d) == (c == d)
  {
    assert (p + [c])[..|p|] == p;
  }

  /** The character loop of split.cpp, with its `word` and `isSpace` state. */
  method SplitWords(s: string, delim: char) returns (words: seq<string>)
    ensures words == Split(s, delim)
  {
    words := [];
    var word := "";
    var isSpace := false;
    for i := 0 to |s|
      invariant isSpace == EndsInDelim(s[..i], delim)
      invariant isSpace ==> word == ""
      invariant isSpace ==> words == Split(s[..i], delim)
      invariant !isSpace ==> words + [word] == Split(s[..i], delim)
    {
      var ch := s[i];
      assert s[..i + 1] == s[..i] + [ch];
      SplitSnoc(s[..i], ch, delim);
      if ch != delim {
        if !isSpace {
          assert (words + [word])[..|words|] == words;
          assert Split(s[..i + 1], delim) == words + [word + [ch]];
        } else {
          assert word + [ch] == [ch];
        }
        isSpace := false;
        word := word + [ch];
      } else if !isSpace {
        isSpace := true;
        words := words + [word];
        word := "";
      }
    }
    assert s[..|s|] == s;
    if !isSpace {
      words := words + [word];
    }
  }

  /** No word contains the delimiter. */
  lemma {:induction false} SplitWordsHaveNoDelim(s: string, d: char)
    ensures forall i | 0 <= i < |Split(s, d)| :: d !in Split(s, d)[i]
    decreases |s|
  {
    if s != [] {
      SplitWordsHaveNoDelim(s[..|s| - 1], d);
    }
  }

  /** Concatenating the words gives the input without its delimiters. */
  lemma {:induction false} SplitConcat(s: string, d: char)
    ensures Concat(Split(s, d)) == RemoveAll(s, d)
    decreases |s|
  {
    if s != [] {
      var p, c := s[..|s| - 1], s[|s| - 1];
      SplitConcat(p, d);
      var w := Split(p, d);
      if c != d {
        if EndsInDelim(p, d) {
          ConcatSnoc(w, [c]);
        } else {
          var init, last := w[..|w| - 1], w[|w| - 1];
          assert w == init + [last];
          ConcatSnoc(init, last);
          ConcatSnoc(init, last + [c]);
        }
      }
    }
  }

  /** Every word but the first is non-empty, and the first is empty exactly
      when the input is empty or starts with the delimiter. */
  lemma {:induction false} SplitShape(s: string, d: char)
    ensures forall i | 1 <= i < |Split(s, d)| :: Split(s, d)[i] != []
    ensures Split(s, d)[0] == [] <==> s == [] || s[0] == d
    decreases |s|
  {
    if s != [] {
      var p := s[..|s| - 1];
      SplitShape(p, d);
      if p != [] {
        assert p[0] == s[0];
      }
    }
  }

  /** In particular the output never ends in an empty word, unless it is the
      lone word of an input that is empty or consists of delimiters only. */
  lemma {:induction false} SplitNoTrailingEmpty(s: string, d: char)
    requires exists i | 0 <= i < |s| :: s[i] != d
    ensures Split(s, d)[|Split(s, d)| - 1] != []
    decreases |s|
  {
    var n := |s| - 1;
    var p, c := s[..n], s[n];
    assert s == p + [c];
    SplitSnoc(p, c, d);
    if c == d {
      var i :| 0 <= i < |s| && s[i] != d;
      assert p[i] == s[i];
      SplitNoTrailingEmpty(p, d);
    }
  }

  /** An input without the delimiter is a single word. */
  lemma {:induction false} SplitWithoutDelim(s: string, d: char)
    requires d !in s
    ensures Split(s, d) == [s]
    decreases |s|
  {
    if s != [] {
      var p := s[..|s| - 1];
      SplitWithoutDelim(p, d);
      assert s == p + [s[|s| - 1]];
    }
  }

  /** Split of a longer input depends on the prefix only through the words it
      yields and the `isSpace` flag it leaves. */
  lemma {:induction false} SplitCongruence(x: string, y: string, b: string, d: char)
    requires Split(x, d) == Split(y, d) && EndsInDelim(x, d) == EndsInDelim(y, d)
    ensures Split(x + b, d) == Split(y + b, d)
    ensures EndsInDelim(x + b, d) == EndsInDelim(y + b, d)
    decreases |b|
  {
    if b == [] {
      assert x + b == x && y + b == y;
    } else {
      var b', c := b[..|b| - 1], b[|b| - 1];
      assert (x + b)[..|x + b| - 1] == x + b';
      assert (y + b)[..|y + b| - 1] == y + b';
      SplitCongruence(x, y, b', d);
    }
  }

  /** A run of consecutive delimiters ends at most one word: doubling a
      delimiter anywhere changes nothing. */
  lemma SplitCollapsesRun(a: string, b: string, d: char)
    ensures Split(a + [d, d] + b, d) == Split(a + [d] + b, d)
  {
    var x, y := a + [d, d], a + [d];
    assert x[..|x| - 1] == y;
    assert y[..|y| - 1] == a;
    SplitCongruence(x, y, b, d);
    assert a + [d, d] + b == x + b;
    assert a + [d] + b == y + b;
  }

  /** A run of delimiters followed by a delimiter-free word appends exactly
      that word to the words of what precedes the run. */
  lemma {:induction false} SplitJoin(x: string, run: string, w: string, d: char)
    requires |run| > 0 && forall k | 0 <= k < |run| :: run[k] == d
    requires |w| > 0 && d !in w
    ensures Split(x + run + w, d) == Split(x, d) + [w]
    decreases |w|
  {
    var w', c := w[..|w| - 1], w[|w| - 1];
    assert (x + run + w)[..|x + run + w| - 1] == x + run + w';
    if w' == [] {
      assert x + run + w' == x + run;
      assert w == [c];
      SplitDelimRun(x, run, d);
    } else {
      assert (x + run + w')[|x + run + w'| - 1] == w'[|w'| - 1] && w'[|w'| - 1] in w;
      SplitJoin(x, run, w', d);
      assert (Split(x, d) + [w'])[..|Split(x, d)|] == Split(x, d);
      assert w == w' + [c];
    }
  }

  /** Reading a non-empty run of delimiters adds no word. */
  lemma {:induction false} SplitDelimRun(x: string, run: string, d: char)
    requires |run| > 0 && forall k | 0 <= k < |run| :: run[k] == d
    ensures Split(x + run, d) == Split(x, d) && EndsInDelim(x + run, d)
    decreases |run|
  {
    var run' := run[..|run| - 1];
    assert (x + run)[..|x + run| - 1] == x + run';
    if run' == [] {
      assert x + run' == x;
    } else {
      SplitDelimRun(x, run', d);
    }
  }

  /** Trailing delimiters yield no trailing empty word. */
  lemma SplitTrailingDelims(x: string, run: string, d: char)
    requires |run| > 0 && forall k | 0 <= k < |run| :: run[k] == d
    ensures Split(x + run, d) == Split(x, d)
  {
    SplitDelimRun(x, run, d);
  }

  /** The words `ws` written out with one delimiter between neighbours. */
  function Join(ws: seq<string>, d: char): string
  {
    if ws == [] then ""
    else if |ws| == 1 then ws[0]
    else Join(ws[..|ws| - 1], d) + [d] + ws[|ws| - 1]
  }

  /** Splitting undoes joining, for words that `split` can produce: none
      contains the delimiter and only the first may be empty. */
  lemma {:induction false} SplitOfJoin(ws: seq<string>, d: char)
    requires |ws| >= 1
    requires forall i | 0 <= i < |ws| :: d !in ws[i]
    requires forall i | 1 <= i < |ws| :: ws[i] != []
    ensures Split(Join(ws, d), d) == ws
    decreases |ws|
  {
    if |ws| == 1 {
      SplitWithoutDelim(ws[0], d);
    } else {
      var init := ws[..|ws| - 1];
      SplitOfJoin(init, d);
      SplitJoin(Join(init, d), [d], ws[|ws| - 1], d);
      assert ws == init + [ws[|ws| - 1]];
    }
  }

  /** main of split.cpp: six words in order. */
  method SplitDemo() returns (words: seq<string>)
    ensures words == ["Some", "random", "text", "with", "no", "purpose"]
  {
    var ws := ["Some", "random", "text", "with", "no", "purpose"];
    assert Join(ws[..1], ',') == "Some";
    assert ws[..2][..1] == ws[..1];
    assert Join(ws[..2], ',') == "Some,random";
    assert ws[..3][..2] == ws[..2];
    assert Join(ws[..3], ',') == "Some,random,text";
    assert ws[..4][..3] == ws[..3];
    assert Join(ws[..4], ',') == "Some,random,text,with";
    assert ws[..5][..4] == ws[..4];
    assert Join(ws[..5], ',') == "Some,random,text,with,no";
    assert ws[..5] == ws[..|ws| - 1];
    assert Join(ws, ',') == "Some,random,text,with,no,purpose";
    SplitOfJoin(ws, ',');
    words := SplitWords("Some,random,text,with,no,purpose", ',');
  }
}
