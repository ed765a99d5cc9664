/**
  Data model of the BRKGA knapsack solver: items, genes and chromosomes.

  A chromosome is a vector of `(key, item)` pairs. The program keeps it sorted with
  `sort(rbegin, rend)` on `pair<double, int>`, that is in descending lexicographic
  order: larger key first, and on equal keys the larger item index first. Keys are
  modelled as reals; only their order matters.
 */
module Chromosomes {
  import opened Multisets

  /** An item of the instance. `density` stands for the value/weight ratio, which the
      program computes in floating point when it reads the instance; the model keeps
      it as an abstract real. */
  datatype Item = Item(weight: int, value: int, density: real)

  /** A gene: a random key and the index of the item it ranks. */
  datatype Gene = Gene(key: real, item: int)

  /** The key distribution draws from the half-open interval [KeyLo, KeyHi). */
  const KeyLo: real := 0.001
  const KeyHi: real := 0.999

  predicate IsKeyDraw(d: real) {
    KeyLo <= d < KeyHi
  }

  predicate AreKeyDraws(ds: seq<real>) {
    forall i :: 0 <= i < |ds| ==> IsKeyDraw(ds[i])
  }

  /** `a` may stand before `b` in a chromosome sorted in descending pair order. */
  predicate Precedes(a: Gene, b: Gene) {
    a.key > b.key || (a.key == b.key && a.item >= b.item)
  }

  predicate Sorted(c: seq<Gene>) {
    forall i, j :: 0 <= i < j < |c| ==> Precedes(c[i], c[j])
  }

  /** The item indices of a chromosome, position by position. */
  function Items(c: seq<Gene>): seq<int> {
    seq(|c|, i requires 0 <= i < |c| => c[i].item)
  }

  /** The item indices 0, 1, ..., n-1 in natural order. */
  function Iota(n: nat): (r: seq<int>)
    ensures |r| == n
    ensures forall i :: 0 <= i < n ==> r[i] == i
  {
    seq(n, i => i)
  }

  /** Every item index 0..n-1 occurs exactly once in `c`. */
  predicate IsPermutation(c: seq<Gene>, n: nat) {
    multiset(Items(c)) == multiset(Iota(n))
  }

  /** Every gene names an item of an instance of `n` items. */
  predicate IndicesIn(c: seq<Gene>, n: int) {
    forall i :: 0 <= i < |c| ==> 0 <= c[i].item < n
  }

  /** No item is named by two genes. */
  predicate Distinct(c: seq<Gene>) {
    forall i, j :: 0 <= i < j < |c| ==> c[i].item != c[j].item
  }

  /** A chromosome as the decoder expects it: one gene per item, in descending order. */
  predicate IsChromosome(c: seq<Gene>, n: nat) {
    IsPermutation(c, n) && Sorted(c)
  }

  lemma HeadPrecedesInserted(g: Gene, c: seq<Gene>, t: seq<Gene>)
    requires Sorted(c) && c != [] && !Precedes(g, c[0])
    requires multiset(t) == multiset(c[1..]) + multiset{g}
    ensures forall j :: 0 <= j < |t| ==> Precedes(c[0], t[j])
  {
    InsertedMembers(c[1..], g, t);
    forall j | 0 <= j < |t|
      ensures Precedes(c[0], t[j])
    {
      if t[j] != g {
        var k :| 0 <= k < |c[1..]| && c[1..][k] == t[j];
        assert c[k + 1] == t[j];
      }
    }
  }

  lemma ItemsCons(g: Gene, c: seq<Gene>)
    ensures Items([g] + c) == [g.item] + Items(c)
  {
  }

  lemma SortedCons(g: Gene, c: seq<Gene>)
    requires Sorted(c)
    requires forall j :: 0 <= j < |c| ==> Precedes(g, c[j])
    ensures Sorted([g] + c)
  {
  }

  lemma SortedTail(c: seq<Gene>)
    requires Sorted(c) && c != []
    ensures Sorted(c[1..])
  {
  }

  lemma InsertBehindHead(g: Gene, c: seq<Gene>, t: seq<Gene>)
    requires Sorted(c) && Sorted(t) && c != [] && !Precedes(g, c[0])
    requires multiset(t) == multiset(c[1..]) + multiset{g}
    requires multiset(Items(t)) == multiset(Items(c[1..])) + multiset{g.item}
    ensures Sorted([c[0]] + t)
    ensures multiset([c[0]] + t) == multiset(c) + multiset{g}
    ensures multiset(Items([c[0]] + t)) == multiset(Items(c)) + multiset{g.item}
  {
    InsertBehindHeadSorted(g, c, t);
    InsertBehindHeadGenes(g, c, t);
    InsertBehindHeadItems(g, c, t);
  }

  lemma InsertBehindHeadSorted(g: Gene, c: seq<Gene>, t: seq<Gene>)
    requires Sorted(c) && Sorted(t) && c != [] && !Precedes(g, c[0])
    requires multiset(t) == multiset(c[1..]) + multiset{g}
    ensures Sorted([c[0]] + t)
  {
    HeadPrecedesInserted(g, c, t);
    SortedTail(c);
    SortedCons(c[0], t);
  }

  lemma InsertBehindHeadGenes(g: Gene, c: seq<Gene>, t: seq<Gene>)
    requires c != []
    requires multiset(t) == multiset(c[1..]) + multiset{g}
    ensures multiset([c[0]] + t) == multiset(c) + multiset{g}
  {
    ConsMultiset(c[0], c[1..], t, g);
    assert c == [c[0]] + c[1..];
  }

  lemma InsertBehindHeadItems(g: Gene, c: seq<Gene>, t: seq<Gene>)
    requires c != []
    requires multiset(Items(t)) == multiset(Items(c[1..])) + multiset{g.item}
    ensures multiset(Items([c[0]] + t)) == multiset(Items(c)) + multiset{g.item}
  {
    ItemsCons(c[0], t);
    ItemsCons(c[0], c[1..]);
    ConsMultiset(c[0].item, Items(c[1..]), Items(t), g.item);
    assert c == [c[0]] + c[1..];
  }

  /** Inserts `g` into a sorted chromosome at its place in descending order. */
  function Insert(g: Gene, c: seq<Gene>): (r: seq<Gene>)
    requires Sorted(c)
    ensures |r| == |c| + 1
    ensures Sorted(r)
    ensures multiset(r) == multiset(c) + multiset{g}
    ensures multiset(Items(r)) == multiset(Items(c)) + multiset{g.item}
  {
    ItemsCons(g, c);
    if c == [] || Precedes(g, c[0]) then
      SortedCons(g, c);
      [g] + c
    else
      var t := Insert(g, c[1..]);
      InsertBehindHead(g, c, t);
      [c[0]] + t
  }

  lemma HeadAndTail(c: seq<Gene>)
    requires c != []
    ensures multiset(c) == multiset(c[1..]) + multiset{c[0]}
    ensures multiset(Items(c)) == multiset(Items(c[1..])) + multiset{c[0].item}
  {
    assert c == [c[0]] + c[1..];
    ItemsCons(c[0], c[1..]);
  }

  /** Sorts genes in descending `(key, item)` order, as `sort(rbegin, rend)` does. */
  function SortDesc(c: seq<Gene>): (r: seq<Gene>)
    ensures |r| == |c|
    ensures Sorted(r)
    ensures multiset(r) == multiset(c)
    ensures multiset(Items(r)) == multiset(Items(c))
  {
    if c == [] then []
    else
      HeadAndTail(c);
      Insert(c[0], SortDesc(c[1..]))
  }

  /** Two sorted sequences of genes with the same elements are equal: the order on
      pairs is total and antisymmetric, so the sorted arrangement is unique. */
  lemma {:induction false} SortedUnique(a: seq<Gene>, b: seq<Gene>)
    requires Sorted(a) && Sorted(b) && multiset(a) == multiset(b)
    ensures a == b
    decreases |a|
  {
    assert |a| == |multiset(a)| == |multiset(b)| == |b|;
    if a != [] {
      assert a[0] in multiset(b);
      var j :| 0 <= j < |b| && b[j] == a[0];
      assert b[0] in multiset(a);
      var k :| 0 <= k < |a| && a[k] == b[0];
      assert Precedes(b[0], a[0]) && Precedes(a[0], b[0]);
      assert a[0] == b[0];
      TailsPermutation(a, b);
      SortedTail(a);
      SortedTail(b);
      SortedUnique(a[1..], b[1..]);
    }
  }

  /** SortDesc yields exactly the sorted arrangement of its input: a gene sequence is
      a sorted permutation of `c` exactly when it equals `SortDesc(c)`, whichever
      algorithm produced it. */
  lemma {:induction false} SortDescIsUnique(c: seq<Gene>, t: seq<Gene>)
    ensures t == SortDesc(c) <==> Sorted(t) && multiset(t) == multiset(c)
  {
    if Sorted(t) && multiset(t) == multiset(c) {
      SortedUnique(SortDesc(c), t);
    }
  }

  /** Re-sorting a sorted chromosome leaves it unchanged. */
  lemma {:induction false} SortDescOfSorted(c: seq<Gene>)
    requires Sorted(c)
    ensures SortDesc(c) == c
  {
    SortedUnique(SortDesc(c), c);
  }

  lemma {:induction false} IotaCount(n: nat, x: int)
    ensures multiset(Iota(n))[x] == if 0 <= x < n then 1 else 0
  {
    if n > 0 {
      assert Iota(n) == Iota(n - 1) + [n - 1];
      IotaCount(n - 1, x);
    }
  }

  /** A permutation of 0..n-1 has n genes, each naming an item in range, no two the same. */
  lemma PermutationFacts(c: seq<Gene>, n: nat)
    requires IsPermutation(c, n)
    ensures |c| == n
    ensures IndicesIn(c, n)
    ensures Distinct(c)
  {
    var s := Items(c);
    assert |c| == |s| == |multiset(s)| == |multiset(Iota(n))| == n;
    forall i | 0 <= i < |c|
      ensures 0 <= c[i].item < n
    {
      assert s[i] in multiset(s);
      IotaCount(n, s[i]);
    }
    forall i, j | 0 <= i < j < |c|
      ensures c[i].item != c[j].item
    {
      if s[i] == s[j] {
        TwoOccurrences(s, i, j);
        IotaCount(n, s[i]);
      }
    }
  }
}
