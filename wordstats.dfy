/** The word-frequency table of lectures/week_3/code/struct.cpp: `find`
    and the update loop of `main` (lines 93-106), which counts each word of
    each line in a vector of (word, occurrences) records.  Lines are split
    with Splitting.Split, the same algorithm as that file's `split`. */
module WordStats {
  import opened Seqs
  import opened Splitting

  datatype WordData = WordData(word: string, occurrences: int)

  /** The words of the table, in table order. */
  function Keys(stats: seq<WordData>): (r: seq<string>)
    ensures |r| == |stats| && forall i | 0 <= i < |stats| :: r[i] == stats[i].word
  {
    if stats == [] then [] else Keys(stats[..|stats| - 1]) + [stats[|stats| - 1].word]
  }

  /** `find`: the index of the first entry holding `word`, or -1. */
  method Find(vec: seq<WordData>, word: string) returns (idx: int)
    ensures idx == -1 <==> forall i | 0 <= i < |vec| :: vec[i].word != word
    ensures idx != -1 ==> 0 <= idx < |vec| && vec[idx].word == word
    ensures idx != -1 ==> forall j | 0 <= j < idx :: vec[j].word != word
  {
    idx := 0;
    for k := 0 to |vec|
      invariant idx == k
      invariant forall j | 0 <= j < k :: vec[j].word != word
    {
      if vec[k].word == word {
        return;
      }
      idx := idx + 1;
    }
    idx := -1;
  }

  /** The table after processing one word: the entry holding it gets one
      more occurrence, or a new entry with one occurrence is appended. */
  function Update(stats: seq<WordData>, w: string): (r: seq<WordData>)
    ensures var k := IndexOf(Keys(stats), w);
      if k == -1 then r == stats + [WordData(w, 1)]
      else (|r| == |stats| && r[k] == WordData(w, stats[k].occurrences + 1)
        && forall j | 0 <= j < |stats| && j != k :: r[j] == stats[j])
  {
    var k := IndexOf(Keys(stats), w);
    if k == -1 then stats + [WordData(w, 1)]
    else stats[k := stats[k].(occurrences := stats[k].occurrences + 1)]
  }

  /** The table after processing `ws` in order. */
  function Tally(stats: seq<WordData>, ws: seq<string>): seq<WordData>
  {
    if ws == [] then stats else Update(Tally(stats, ws[..|ws| - 1]), ws[|ws| - 1])
  }

  /** The inner loop of main: each word of one line updates `stats` in place. */
  method TallyWords(stats: seq<WordData>, words: seq<string>) returns (result: seq<WordData>)
    ensures result == Tally(stats, words)
  {
    result := stats;
    for i := 0 to |words|
      invariant result == Tally(stats, words[..i])
    {
      var word := words[i];
      assert words[..i + 1][..i] == words[..i];
      var idx := Find(result, word);
      assert idx == IndexOf(Keys(result), word);
      if idx != -1 {
        result := result[idx := result[idx].(occurrences := result[idx].occurrences + 1)];
        continue;
      }
      result := result + [WordData(word, 1)];
    }
    assert words[..|words|] == words;
  }

  /** All words of all lines, each line split at spaces. */
  function LineWords(lines: seq<string>): seq<string>
  {
    if lines == [] then [] else LineWords(lines[..|lines| - 1]) + Split(lines[|lines| - 1], ' ')
  }

  lemma {:induction false} TallyAppend(stats: seq<WordData>, a: seq<string>, b: seq<string>)
    ensures Tally(stats, a + b) == Tally(Tally(stats, a), b)
    decreases |b|
  {
    if b == [] {
      assert a + b == a;
    } else {
      assert (a + b)[..|a + b| - 1] == a + b[..|b| - 1];
      TallyAppend(stats, a, b[..|b| - 1]);
    }
  }

  /** The line loop of main, from an empty table. */
  method TallyLines(lines: seq<string>) returns (stats: seq<WordData>)
    ensures stats == Tally([], LineWords(lines))
  {
    stats := [];
    for i := 0 to |lines|
      invariant stats == Tally([], LineWords(lines[..i]))
    {
      var words := SplitWords(lines[i], ' ');
      assert lines[..i + 1][..i] == lines[..i];
      TallyAppend([], LineWords(lines[..i]), words);
      stats := TallyWords(stats, words);
    }
    assert lines[..|lines|] == lines;
  }

  /** The occurrences the table records for `w`, 0 when it has no entry. */
  function OccurrencesOf(stats: seq<WordData>, w: string): int
  {
    var k := IndexOf(Keys(stats), w);
    if k == -1 then 0 else stats[k].occurrences
  }

  /** The sum of all occurrences. */
  function Total(stats: seq<WordData>): int
  {
    if stats == [] then 0 else Total(stats[..|stats| - 1]) + stats[|stats| - 1].occurrences
  }

  lemma {:induction false} KeysAppend(stats: seq<WordData>, e: WordData)
    ensures Keys(stats + [e]) == Keys(stats) + [e.word]
  {
    assert (stats + [e])[..|stats|] == stats;
  }

  /** The words of the table stay pairwise distinct. */
  lemma {:induction false} TallyKeepsDistinct(stats: seq<WordData>, ws: seq<string>)
    requires Distinct(Keys(stats))
    ensures Distinct(Keys(Tally(stats, ws)))
    decreases |ws|
  {
    if ws != [] {
      var t := Tally(stats, ws[..|ws| - 1]);
      TallyKeepsDistinct(stats, ws[..|ws| - 1]);
      var w := ws[|ws| - 1];
      if IndexOf(Keys(t), w) == -1 {
        KeysAppend(t, WordData(w, 1));
      } else {
        assert Keys(Update(t, w)) == Keys(t);
      }
    }
  }

  /** The entries' words are the table's words followed by the new words of
      `ws` in the order of their first occurrence; the order of existing
      entries never changes. */
  lemma {:induction false} TallyOrder(stats: seq<WordData>, ws: seq<string>)
    ensures Keys(Tally(stats, ws)) == Extend(Keys(stats), ws)
    decreases |ws|
  {
    if ws != [] {
      var t := Tally(stats, ws[..|ws| - 1]);
      TallyOrder(stats, ws[..|ws| - 1]);
      var w := ws[|ws| - 1];
      if IndexOf(Keys(t), w) == -1 {
        KeysAppend(t, WordData(w, 1));
      } else {
        assert Keys(Update(t, w)) == Keys(t);
      }
    }
  }

  lemma TotalAppend(stats: seq<WordData>, e: WordData)
    ensures Total(stats + [e]) == Total(stats) + e.occurrences
  {
    assert (stats + [e])[..|stats|] == stats;
  }

  lemma {:induction false} TotalUpdateAt(stats: seq<WordData>, k: nat, e: WordData)
    requires k < |stats|
    ensures Total(stats[k := e]) == Total(stats) - stats[k].occurrences + e.occurrences
    decreases |stats|
  {
    var n := |stats| - 1;
    if k < n {
      assert stats[k := e][..n] == stats[..n][k := e];
      TotalUpdateAt(stats[..n], k, e);
    } else {
      assert stats[k := e][..n] == stats[..n];
    }
  }

  /** Processing one word adds one occurrence in all. */
  lemma TotalUpdate(t: seq<WordData>, w: string)
    ensures Total(Update(t, w)) == Total(t) + 1
  {
    var k := IndexOf(Keys(t), w);
    if k == -1 {
      TotalAppend(t, WordData(w, 1));
    } else {
      TotalUpdateAt(t, k, WordData(w, t[k].occurrences + 1));
    }
  }

  /** The occurrences add up to the number of words processed. */
  lemma {:induction false} TallyTotal(stats: seq<WordData>, ws: seq<string>)
    ensures Total(Tally(stats, ws)) == Total(stats) + |ws|
    decreases |ws|
  {
    if ws != [] {
      TallyTotal(stats, ws[..|ws| - 1]);
      TotalUpdate(Tally(stats, ws[..|ws| - 1]), ws[|ws| - 1]);
    }
  }

  /** A new entry with one occurrence of `w` adds one to `w` only. */
  lemma OccurrencesAppend(stats: seq<WordData>, w: string, v: string)
    requires w !in Keys(stats)
    ensures OccurrencesOf(stats + [WordData(w, 1)], v) == OccurrencesOf(stats, v) + (if v == w then 1 else 0)
  {
    var r := stats + [WordData(w, 1)];
    KeysAppend(stats, WordData(w, 1));
    var kv := IndexOf(Keys(stats), v);
    if v == w {
      assert Keys(r)[..|stats|] == Keys(stats);
      IndexOfAt(Keys(r), v, |stats|);
    } else if kv != -1 {
      assert Keys(r)[..kv] == Keys(stats)[..kv];
      IndexOfAt(Keys(r), v, kv);
    } else {
      assert v !in Keys(r);
    }
  }

  /** Processing `w` adds one occurrence to `w` and none to any other word. */
  lemma UpdateOccurrences(stats: seq<WordData>, w: string, v: string)
    ensures OccurrencesOf(Update(stats, w), v) == OccurrencesOf(stats, v) + (if v == w then 1 else 0)
  {
    if IndexOf(Keys(stats), w) == -1 {
      OccurrencesAppend(stats, w, v);
    } else {
      OccurrencesBump(stats, w, v);
    }
  }

  /** One more occurrence in the entry holding `w` adds one to `w` only. */
  lemma OccurrencesBump(stats: seq<WordData>, w: string, v: string)
    requires IndexOf(Keys(stats), w) != -1
    ensures OccurrencesOf(Update(stats, w), v) == OccurrencesOf(stats, v) + (if v == w then 1 else 0)
  {
    var r, k := Update(stats, w), IndexOf(Keys(stats), w);
    SameKeys(r, stats);
    var kv := IndexOf(Keys(stats), v);
    assert kv == k <==> v == w;
    if kv != -1 {
      assert OccurrencesOf(r, v) == r[kv].occurrences;
    }
  }

  /** Tables holding the same words in the same order have the same keys. */
  lemma SameKeys(a: seq<WordData>, b: seq<WordData>)
    requires |a| == |b| && forall j | 0 <= j < |a| :: a[j].word == b[j].word
    ensures Keys(a) == Keys(b)
  {
    assert forall j | 0 <= j < |a| :: Keys(a)[j] == Keys(b)[j];
  }

  /** Each word's recorded occurrences grow by the number of times it was processed. */
  lemma {:induction false} TallyOccurrences(stats: seq<WordData>, ws: seq<string>, v: string)
    ensures OccurrencesOf(Tally(stats, ws), v) == OccurrencesOf(stats, v) + Count(ws, v)
    decreases |ws|
  {
    if ws != [] {
      var p := ws[..|ws| - 1];
      TallyOccurrences(stats, p, v);
      UpdateOccurrences(Tally(stats, p), ws[|ws| - 1], v);
    }
  }

  /** From an empty table: one entry per distinct word, in first-occurrence
      order, each holding the number of times its word was processed. */
  lemma CountsFromEmpty(ws: seq<string>)
    ensures Distinct(Keys(Tally([], ws)))
    ensures Keys(Tally([], ws)) == Dedup(ws)
    ensures Total(Tally([], ws)) == |ws|
    ensures forall i | 0 <= i < |Tally([], ws)| :: Tally([], ws)[i].occurrences == Count(ws, Tally([], ws)[i].word)
  {
    var t := Tally([], ws);
    TallyKeepsDistinct([], ws);
    TallyOrder([], ws);
    TallyTotal([], ws);
    forall i | 0 <= i < |t|
      ensures t[i].occurrences == Count(ws, t[i].word)
    {
      TallyOccurrences([], ws, t[i].word);
      OccurrencesOfEntry(t, i);
    }
  }

  /** In a table with distinct words, each entry is the one `find` reaches. */
  lemma OccurrencesOfEntry(t: seq<WordData>, i: nat)
    requires Distinct(Keys(t)) && i < |t|
    ensures OccurrencesOf(t, t[i].word) == t[i].occurrences
  {
    DistinctIndexOf(Keys(t), i);
  }

  /** An empty line is split into the lone empty word, which is counted once. */
  lemma EmptyLineCountsEmptyWord(stats: seq<WordData>)
    ensures OccurrencesOf(Tally(stats, Split("", ' ')), "") == OccurrencesOf(stats, "") + 1
  {
    TallyOccurrences(stats, [""], "");
  }
}
