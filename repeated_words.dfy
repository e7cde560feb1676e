/** `find` and `repeats` of lectures/week_4/code/q9.cpp: the words that occur
    more than once, each reported once. */
module RepeatedWords {
  import opened Seqs

  /** `find`: true iff `word` is one of `words`. */
  method Find(words: seq<string>, word: string) returns (found: bool)
    ensures found <==> word in words
  {
    for j := 0 to |words|
      invariant word !in words[..j]
    {
      if words[j] == word {
        return true;
      }
      assert words[..j + 1] == words[..j] + [words[j]];
    }
    assert words[..|words|] == words;
    return false;
  }

  /** Some position before `k`, other than `i`, holds the word at `i`. */
  predicate PartnerBefore(w: seq<string>, i: nat, k: nat)
    requires i < |w| && k <= |w|
  {
    exists j | 0 <= j < k :: j != i && w[j] == w[i]
  }

  /** The word at `i` also occurs at some other position. */
  predicate HasPartner(w: seq<string>, i: nat)
    requires i < |w|
  {
    PartnerBefore(w, i, |w|)
  }

  /** The result after the outer loop has run for `i` = 0 .. n-1: the word at
      n-1 is appended when it has a partner and is not reported yet. */
  function RepeatsUpTo(w: seq<string>, n: nat): seq<string>
    requires n <= |w|
  {
    if n == 0 then []
    else
      var r := RepeatsUpTo(w, n - 1);
      if HasPartner(w, n - 1) && w[n - 1] !in r then r + [w[n - 1]] else r
  }

  /** `repeats`: for each `i`, the inner loop over `k` pushes `words[i]` at
      the first partner it meets, unless `find` already sees it in `result`. */
  method Repeats(words: seq<string>) returns (result: seq<string>)
    ensures result == RepeatsUpTo(words, |words|)
  {
    result := [];
    for i := 0 to |words|
      invariant result == RepeatsUpTo(words, i)
    {
      ghost var base := result;
      for k := 0 to |words|
        invariant result == if PartnerBefore(words, i, k) && words[i] !in base then base + [words[i]] else base
      {
        if i == k {
          continue;
        }
        if words[i] == words[k] {
          var seen := Find(result, words[i]);
          if !seen {
            result := result + [words[i]];
          }
        }
      }
    }
  }

  /** No word is reported twice. */
  lemma {:induction false} RepeatsDistinct(w: seq<string>, n: nat)
    requires n <= |w|
    ensures Distinct(RepeatsUpTo(w, n))
    decreases n
  {
    if n > 0 {
      RepeatsDistinct(w, n - 1);
    }
  }

  /** A word is reported by the first `n` rounds iff one of the first `n`
      positions holds it and has a partner. */
  lemma {:induction false} RepeatsMember(w: seq<string>, n: nat, x: string)
    requires n <= |w|
    ensures x in RepeatsUpTo(w, n) <==> exists j | 0 <= j < n :: w[j] == x && HasPartner(w, j)
    decreases n
  {
    if n > 0 {
      RepeatsMember(w, n - 1, x);
      if w[n - 1] == x && HasPartner(w, n - 1) {
        assert x in RepeatsUpTo(w, n);
      }
    }
  }

  /** The result holds exactly the words found at two different positions. */
  lemma RepeatsExactly(w: seq<string>, x: string)
    ensures x in RepeatsUpTo(w, |w|) <==>
      exists i, k | 0 <= i < |w| && 0 <= k < |w| :: i != k && w[i] == x && w[k] == x
  {
    RepeatsMember(w, |w|, x);
  }

  /** The result lists the words in the order of their first occurrence. */
  lemma {:induction false} RepeatsOrdered(w: seq<string>, n: nat)
    requires n <= |w|
    ensures forall p, q | 0 <= p < q < |RepeatsUpTo(w, n)| ::
      IndexOf(w, RepeatsUpTo(w, n)[p]) < IndexOf(w, RepeatsUpTo(w, n)[q])
    ensures forall p | 0 <= p < |RepeatsUpTo(w, n)| :: 0 <= IndexOf(w, RepeatsUpTo(w, n)[p]) < n
    decreases n
  {
    if n > 0 {
      var r := RepeatsUpTo(w, n - 1);
      RepeatsOrdered(w, n - 1);
      var x := w[n - 1];
      if HasPartner(w, n - 1) && x !in r {
        var j0 := IndexOf(w, x);
        assert x in w[..n];
        if j0 < n - 1 {
          assert HasPartner(w, j0) by {
            assert n - 1 != j0 && w[n - 1] == w[j0];
          }
          RepeatsMember(w, n - 1, x);
        }
        assert j0 == n - 1;
        var r' := r + [x];
        forall p, q | 0 <= p < q < |r'|
          ensures IndexOf(w, r'[p]) < IndexOf(w, r'[q])
        {
          assert r'[p] == r[p];
          if q < |r| {
            assert r'[q] == r[q];
          } else {
            assert r'[q] == x;
          }
        }
      }
    }
  }

  /** The rounds of `repeats` on text1 of q9.cpp: no word has a partner. */
  lemma Text1Rounds(w: seq<string>)
    requires w == ["Some", "random", "text", "again"]
    ensures RepeatsUpTo(w, 4) == []
  {
    assert !HasPartner(w, 0) && RepeatsUpTo(w, 1) == [];
    assert !HasPartner(w, 1) && RepeatsUpTo(w, 2) == [];
    assert !HasPartner(w, 2) && RepeatsUpTo(w, 3) == [];
    assert !HasPartner(w, 3);
  }

  /** The rounds of `repeats` on text2 of q9.cpp: "some" is reported in the
      first round and found again in the third. */
  lemma Text2Rounds(w: seq<string>)
    requires w == ["some", "random", "some", "text"]
    ensures RepeatsUpTo(w, 4) == ["some"]
  {
    assert w[2] == w[0];
    assert HasPartner(w, 0) && RepeatsUpTo(w, 1) == ["some"];
    assert !HasPartner(w, 1) && RepeatsUpTo(w, 2) == ["some"];
    assert RepeatsUpTo(w, 3) == ["some"];
    assert !HasPartner(w, 3);
  }

  /** main of q9.cpp: the first text has no repeated word, the second repeats
      "some" only ("Some" and "some" differ). */
  method RepeatedWordsDemo() returns (rep1: seq<string>, rep2: seq<string>)
    ensures rep1 == [] && rep2 == ["some"]
  {
    var text1 := ["Some", "random", "text", "again"];
    var text2 := ["some", "random", "some", "text"];
    rep1 := Repeats(text1);
    rep2 := Repeats(text2);
    Text1Rounds(text1);
    Text2Rounds(text2);
  }
}
