/**
  Small facts linking sequences to the multisets of their elements, used by the
  sorting and permutation arguments of the other modules.
 */
module Multisets {

  /** Every element of a permutation of `s` is an element of `s`. */
  lemma PermutationMembers<T>(s: seq<T>, t: seq<T>)
    requires multiset(t) == multiset(s)
    ensures forall j :: 0 <= j < |t| ==> exists i :: 0 <= i < |s| && t[j] == s[i]
  {
    forall j | 0 <= j < |t|
      ensures exists i :: 0 <= i < |s| && t[j] == s[i]
    {
      assert t[j] in multiset(t);
      assert t[j] in multiset(s);
      assert t[j] in s;
      var i :| 0 <= i < |s| && s[i] == t[j];
      assert t[j] == s[i];
    }
  }

  /** After inserting `x` into `s`, every element is `x` or was already in `s`. */
  lemma InsertedMembers<T>(s: seq<T>, x: T, t: seq<T>)
    requires multiset(t) == multiset(s) + multiset{x}
    ensures forall j :: 0 <= j < |t| ==> t[j] == x || t[j] in s
  {
    forall j | 0 <= j < |t|
      ensures t[j] == x || t[j] in s
    {
      assert t[j] in multiset(t);
    }
  }

  /** Equal heads cancel: the tails of two permutations with the same head are permutations. */
  lemma TailsPermutation<T>(a: seq<T>, b: seq<T>)
    requires a != [] && b != [] && a[0] == b[0] && multiset(a) == multiset(b)
    ensures multiset(a[1..]) == multiset(b[1..])
  {
    assert a == [a[0]] + a[1..];
    assert b == [b[0]] + b[1..];
    assert multiset(a) == multiset{a[0]} + multiset(a[1..]);
    assert multiset(b) == multiset{b[0]} + multiset(b[1..]);
    assert multiset(a[1..]) == multiset(a) - multiset{a[0]};
  }

  /** Putting the same head before a sequence and before its extension by `x`. */
  lemma ConsMultiset<T>(h: T, s: seq<T>, t: seq<T>, x: T)
    requires multiset(t) == multiset(s) + multiset{x}
    ensures multiset([h] + t) == multiset([h] + s) + multiset{x}
  {
  }

  /** A value found at two distinct positions occurs at least twice. */
  lemma TwoOccurrences<T>(s: seq<T>, i: int, j: int)
    requires 0 <= i < j < |s| && s[i] == s[j]
    ensures multiset(s)[s[i]] >= 2
  {
    assert s == s[..j] + s[j..];
    assert s[..j][i] == s[i];
    assert s[i] in multiset(s[..j]);
    assert s[j..][0] == s[j];
    assert s[j] in multiset(s[j..]);
  }
}
