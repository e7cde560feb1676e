/** Sequence vocabulary shared by the models of the individual source files.
    Every recursive definition here peels the LAST element, so that a loop
    that has processed `s[..i]` can keep `x == F(s[..i])` as its invariant. */
module Seqs {

  /** Concatenation of a sequence of sequences, left to right. */
  function Concat<T>(ws: seq<seq<T>>): seq<T>
  {
    if ws == [] then [] else Concat(ws[..|ws| - 1]) + ws[|ws| - 1]
  }

  lemma ConcatSnoc<T>(ws: seq<seq<T>>, w: seq<T>)
    ensures Concat(ws + [w]) == Concat(ws) + w
  {
    assert (ws + [w])[..|ws|] == ws;
  }

  lemma {:induction false} ConcatAppend<T>(a: seq<seq<T>>, b: seq<seq<T>>)
    ensures Concat(a + b) == Concat(a) + Concat(b)
    decreases |b|
  {
    if b == [] {
      assert a + b == a;
    } else {
      var b', w := b[..|b| - 1], b[|b| - 1];
      assert a + b == (a + b') + [w];
      assert b == b' + [w];
      ConcatSnoc(a + b', w);
      ConcatSnoc(b', w);
      ConcatAppend(a, b');
    }
  }

  /** The sum of the lengths of the members of `ws`. */
  function TotalLength<T>(ws: seq<seq<T>>): nat
  {
    if ws == [] then 0 else TotalLength(ws[..|ws| - 1]) + |ws[|ws| - 1]|
  }

  lemma {:induction false} ConcatLength<T>(ws: seq<seq<T>>)
    ensures |Concat(ws)| == TotalLength(ws)
    decreases |ws|
  {
    if ws != [] {
      ConcatLength(ws[..|ws| - 1]);
    }
  }

  /** `s` backwards. */
  function Reversed<T>(s: seq<T>): seq<T>
  {
    if s == [] then [] else [s[|s| - 1]] + Reversed(s[..|s| - 1])
  }

  lemma {:induction false} ReversedLength<T>(s: seq<T>)
    ensures |Reversed(s)| == |s|
    decreases |s|
  {
    if s != [] {
      ReversedLength(s[..|s| - 1]);
    }
  }

  lemma {:induction false} ReversedAt<T>(s: seq<T>, k: nat)
    requires k < |s|
    ensures |Reversed(s)| == |s| && Reversed(s)[k] == s[|s| - 1 - k]
    decreases |s|
  {
    ReversedLength(s);
    if k > 0 {
      ReversedAt(s[..|s| - 1], k - 1);
    }
  }

  /** Putting `x` in front of `s` puts it at the back of the reversal. */
  lemma {:induction false} ReversedCons<T>(x: T, s: seq<T>)
    ensures Reversed([x] + s) == Reversed(s) + [x]
    decreases |s|
  {
    if s == [] {
      assert [x] + s == [x];
      assert [x][..0] == [];
    } else {
      var s', y := s[..|s| - 1], s[|s| - 1];
      assert ([x] + s)[..|s|] == [x] + s';
      ReversedCons(x, s');
    }
  }

  lemma {:induction false} ReversedInvolution<T>(s: seq<T>)
    ensures Reversed(Reversed(s)) == s
    decreases |s|
  {
    if s != [] {
      var s', y := s[..|s| - 1], s[|s| - 1];
      ReversedCons(y, Reversed(s'));
      ReversedInvolution(s');
    }
  }

  /** Number of occurrences of `x` in `s`. */
  function Count<T(==)>(s: seq<T>, x: T): nat
  {
    if s == [] then 0 else Count(s[..|s| - 1], x) + (if s[|s| - 1] == x then 1 else 0)
  }

  lemma {:induction false} CountPositive<T>(s: seq<T>, x: T)
    ensures Count(s, x) > 0 <==> x in s
    decreases |s|
  {
    if s != [] {
      CountPositive(s[..|s| - 1], x);
      assert s == s[..|s| - 1] + [s[|s| - 1]];
    }
  }

  /** No element occurs twice. */
  predicate Distinct<T(==)>(s: seq<T>)
  {
    forall i, j | 0 <= i < j < |s| :: s[i] != s[j]
  }

  /** Index of the first occurrence of `x` in `s`, or -1 when there is none. */
  function IndexOf<T(==)>(s: seq<T>, x: T): (r: int)
    ensures r == -1 <==> x !in s
    ensures r != -1 ==> 0 <= r < |s| && s[r] == x && x !in s[..r]
  {
    if s == [] then -1
    else if s[0] == x then 0
    else
      var k := IndexOf(s[1..], x);
      assert s == [s[0]] + s[1..];
      if k == -1 then -1
      else
        assert s[..k + 1] == [s[0]] + s[1..][..k];
        k + 1
  }

  /** A position holding `x` with no `x` before it is the first occurrence. */
  lemma {:induction false} IndexOfAt<T>(s: seq<T>, x: T, i: nat)
    requires i < |s| && s[i] == x && x !in s[..i]
    ensures IndexOf(s, x) == i
    decreases i
  {
    if i > 0 {
      assert s[0] == s[..i][0];
      assert s[1..][..i - 1] == s[1..i];
      assert forall k | 0 <= k < i - 1 :: s[1..i][k] == s[..i][k + 1];
      IndexOfAt(s[1..], x, i - 1);
    }
  }

  /** In a sequence without repetitions each element is found at its own index. */
  lemma DistinctIndexOf<T>(s: seq<T>, i: nat)
    requires Distinct(s) && i < |s|
    ensures IndexOf(s, s[i]) == i
  {
    assert forall k | 0 <= k < i :: s[..i][k] == s[k];
    IndexOfAt(s, s[i], i);
  }

  /** `s` without any occurrence of `c`. */
  function RemoveAll<T(==)>(s: seq<T>, c: T): seq<T>
  {
    if s == [] then [] else RemoveAll(s[..|s| - 1], c) + (if s[|s| - 1] == c then [] else [s[|s| - 1]])
  }

  lemma {:induction false} RemoveAllAppend<T>(a: seq<T>, b: seq<T>, c: T)
    ensures RemoveAll(a + b, c) == RemoveAll(a, c) + RemoveAll(b, c)
    decreases |b|
  {
    if b == [] {
      assert a + b == a;
    } else {
      assert (a + b)[..|a + b| - 1] == a + b[..|b| - 1];
      RemoveAllAppend(a, b[..|b| - 1], c);
    }
  }

  lemma {:induction false} RemoveAllAbsent<T>(s: seq<T>, c: T)
    requires c !in s
    ensures RemoveAll(s, c) == s
    decreases |s|
  {
    if s != [] {
      RemoveAllAbsent(s[..|s| - 1], c);
    }
  }

  /** Removing `x` drops its first occurrence, at `c`, and those after it. */
  lemma {:induction false} RemoveAllFirstAt<T>(s: seq<T>, x: T, c: nat)
    requires c < |s| && s[c] == x && x !in s[..c]
    ensures RemoveAll(s, x) == s[..c] + RemoveAll(s[c + 1..], x)
    decreases |s|
  {
    var n := |s| - 1;
    if c == n {
      RemoveAllAbsent(s[..c], x);
    } else {
      assert s[..n][..c] == s[..c];
      RemoveAllFirstAt(s[..n], x, c);
      var q := s[c + 1..];
      assert q[..|q| - 1] == s[..n][c + 1..];
    }
  }

  lemma {:induction false} RemoveAllDrops<T>(s: seq<T>, c: T)
    ensures c !in RemoveAll(s, c)
    decreases |s|
  {
    if s != [] {
      RemoveAllDrops(s[..|s| - 1], c);
    }
  }

  /** `acc` followed by the elements of `s` that are not yet in it, each once,
      in the order of their first occurrence in `s`. */
  function Extend<T(==)>(acc: seq<T>, s: seq<T>): seq<T>
  {
    if s == [] then acc
    else
      var e := Extend(acc, s[..|s| - 1]);
      if s[|s| - 1] in e then e else e + [s[|s| - 1]]
  }

  /** The distinct elements of `s` in the order of their first occurrence. */
  function Dedup<T(==)>(s: seq<T>): seq<T>
  {
    Extend([], s)
  }

  /** The sum of the elements. */
  function Sum(s: seq<int>): int
  {
    if s == [] then 0 else Sum(s[..|s| - 1]) + s[|s| - 1]
  }

  lemma {:induction false} SumAppend(a: seq<int>, b: seq<int>)
    ensures Sum(a + b) == Sum(a) + Sum(b)
    decreases |b|
  {
    if b == [] {
      assert a + b == a;
    } else {
      assert (a + b)[..|a + b| - 1] == a + b[..|b| - 1];
      SumAppend(a, b[..|b| - 1]);
    }
  }
}
