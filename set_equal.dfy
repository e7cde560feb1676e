/** `equal` and `equal2` of ice/code/ice04.cpp: equality of two sets of ints. */
module SetEquality {

  /** A subset as large as its superset is the whole superset. */
  lemma SubsetSameSize(a: set<int>, b: set<int>)
    requires a <= b && |a| == |b|
    ensures a == b
  {
    assert b == a + (b - a);
    assert |b| == |a| + |b - a|;
  }

  /** Some element of a non-empty set (the next one a range loop visits). */
  method Pick<V>(s: set<V>) returns (e: V)
    requires s != {}
    ensures e in s
  {
    e :| e in s;
  }

  /** `equal`: sizes first, then every element of `s1` is looked up in `s2`.
      The ascending iteration order of `std::set` does not affect the answer
      and is not modelled. */
  method Equal(s1: set<int>, s2: set<int>) returns (b: bool)
    ensures b <==> s1 == s2
    ensures |s1| != |s2| ==> !b
  {
    if |s1| != |s2| {
      return false;
    }
    var rest := s1;
    while rest != {}
      invariant rest <= s1
      invariant s1 - rest <= s2
      decreases |rest|
    {
      var e := Pick(rest);
      if e !in s2 {
        return false;
      }
      rest := rest - {e};
    }
    SubsetSameSize(s1, s2);
    return true;
  }

  /** `equal2`: the library's `operator==`, which compares elements. */
  function Equal2(s1: set<int>, s2: set<int>): (r: bool)
    ensures r <==> s1 <= s2 && s2 <= s1
  {
    s1 == s2
  }

  /** main of ice04.cpp: the same five numbers in another order. */
  method SetEqualDemo() returns (b: bool)
    ensures b
  {
    b := Equal({1, 2, 3, 4, 5}, {2, 3, 1, 5, 4});
  }

  /** `equal` is reflexive and symmetric, and agrees with `equal2`. */
  method EqualLaws(s1: set<int>, s2: set<int>) returns (refl: bool, forth: bool, back: bool)
    ensures refl
    ensures forth == back && forth == Equal2(s1, s2)
  {
    refl := Equal(s1, s1);
    forth := Equal(s1, s2);
    back := Equal(s2, s1);
  }
}
