/**
  The greedy knapsack decoder (`decode_chromosome`).

  The decoder visits the genes of a chromosome in their stored order and takes an
  item whenever its weight still fits under the capacity `C`, never backtracking.
  `Decode(items, C, c)` is the state of that loop after visiting all of `c`: the
  running weight, the running value (the fitness) and the selection vector.
 */
module Decoder {
  import opened Chromosomes

  /** State of the decoding loop: running weight, running value, selection vector. */
  datatype Decoding = Decoding(weight: int, value: int, selected: seq<bool>)

  predicate PositiveWeights(items: seq<Item>) {
    forall k :: 0 <= k < |items| ==> items[k].weight > 0
  }

  /** Item `k` can be added when the running weight is `w`. */
  predicate Fits(items: seq<Item>, C: int, w: int, k: int)
    requires 0 <= k < |items|
  {
    w + items[k].weight <= C
  }

  function Decode(items: seq<Item>, C: int, c: seq<Gene>): (d: Decoding)
    requires IndicesIn(c, |items|)
    ensures |d.selected| == |items|
    ensures d.weight <= if C < 0 then 0 else C
    decreases |c|
  {
    if c == [] then Decoding(0, 0, seq(|items|, _ => false))
    else
      var d := Decode(items, C, c[..|c| - 1]);
      var k := c[|c| - 1].item;
      if Fits(items, C, d.weight, k) then
        Decoding(d.weight + items[k].weight, d.value + items[k].value, d.selected[k := true])
      else
        d
  }

  /** Decoding one more gene, phrased on prefixes. */
  lemma DecodePrefix(items: seq<Item>, C: int, c: seq<Gene>, i: int)
    requires IndicesIn(c, |items|) && 0 <= i < |c|
    ensures IndicesIn(c[..i], |items|) && IndicesIn(c[..i + 1], |items|)
    ensures var d := Decode(items, C, c[..i]);
            var k := c[i].item;
            Decode(items, C, c[..i + 1]) ==
              if Fits(items, C, d.weight, k) then
                Decoding(d.weight + items[k].weight, d.value + items[k].value, d.selected[k := true])
              else d
  {
    assert c[..i + 1][..i] == c[..i];
  }

  /** The loop of `decode_chromosome`, over a selection vector of length N. */
  method DecodeChromosome(items: seq<Item>, C: int, c: seq<Gene>) returns (value: int, solution: seq<bool>)
    requires IndicesIn(c, |items|)
    ensures value == Decode(items, C, c).value
    ensures solution == Decode(items, C, c).selected
  {
    solution := seq(|items|, _ => false);
    var totalWeight := 0;
    value := 0;
    for i := 0 to |c|
      invariant IndicesIn(c[..i], |items|)
      invariant Decode(items, C, c[..i]) == Decoding(totalWeight, value, solution)
    {
      DecodePrefix(items, C, c, i);
      var idx := c[i].item;
      if totalWeight + items[idx].weight <= C {
        solution := solution[idx := true];
        totalWeight := totalWeight + items[idx].weight;
        value := value + items[idx].value;
      }
    }
    assert c[..|c|] == c;
  }

  /** Sum of `xs[k]` over the positions `k` marked in `sel`. */
  function SumWhere(xs: seq<int>, sel: seq<bool>): int
    requires |xs| == |sel|
  {
    if xs == [] then 0
    else (if sel[0] then xs[0] else 0) + SumWhere(xs[1..], sel[1..])
  }

  function Weights(items: seq<Item>): seq<int> {
    seq(|items|, k requires 0 <= k < |items| => items[k].weight)
  }

  function Values(items: seq<Item>): seq<int> {
    seq(|items|, k requires 0 <= k < |items| => items[k].value)
  }

  lemma {:induction false} SumWhereNone(xs: seq<int>, sel: seq<bool>)
    requires |xs| == |sel|
    requires forall k :: 0 <= k < |sel| ==> !sel[k]
    ensures SumWhere(xs, sel) == 0
  {
    if xs != [] {
      SumWhereNone(xs[1..], sel[1..]);
    }
  }

  /** Marking one more position adds exactly its entry to the sum. */
  lemma {:induction false} SumWhereMark(xs: seq<int>, sel: seq<bool>, k: int)
    requires |xs| == |sel| && 0 <= k < |sel| && !sel[k]
    ensures SumWhere(xs, sel[k := true]) == SumWhere(xs, sel) + xs[k]
  {
    if k == 0 {
      assert sel[k := true][1..] == sel[1..];
    } else {
      assert sel[k := true][1..] == sel[1..][k - 1 := true];
      SumWhereMark(xs[1..], sel[1..], k - 1);
    }
  }

  /** Only items named by some gene of the chromosome are ever marked. */
  lemma {:induction false} MarkedOnlyIfNamed(items: seq<Item>, C: int, c: seq<Gene>)
    requires IndicesIn(c, |items|)
    ensures forall k :: 0 <= k < |items| && Decode(items, C, c).selected[k] ==>
              exists i :: 0 <= i < |c| && c[i].item == k
    decreases |c|
  {
    if c != [] {
      var n := |c| - 1;
      MarkedOnlyIfNamed(items, C, c[..n]);
      DecodePrefix(items, C, c, n);
      assert c[..n + 1] == c;
      forall k | 0 <= k < |items| && Decode(items, C, c).selected[k]
        ensures exists i :: 0 <= i < |c| && c[i].item == k
      {
        if k != c[n].item {
          var i :| 0 <= i < |c[..n]| && c[..n][i].item == k;
          assert c[i].item == k;
        }
      }
    }
  }

  /** Value accounting: when no item is named twice, the returned value is the total
      value of the marked items, and the running weight is their total weight. */
  lemma {:induction false} DecodeAccounting(items: seq<Item>, C: int, c: seq<Gene>)
    requires IndicesIn(c, |items|) && Distinct(c)
    ensures Decode(items, C, c).value == SumWhere(Values(items), Decode(items, C, c).selected)
    ensures Decode(items, C, c).weight == SumWhere(Weights(items), Decode(items, C, c).selected)
    decreases |c|
  {
    if c == [] {
      SumWhereNone(Values(items), Decode(items, C, c).selected);
      SumWhereNone(Weights(items), Decode(items, C, c).selected);
    } else {
      var n := |c| - 1;
      var k := c[n].item;
      DecodeAccounting(items, C, c[..n]);
      DecodePrefix(items, C, c, n);
      assert c[..n + 1] == c;
      var d := Decode(items, C, c[..n]);
      if Fits(items, C, d.weight, k) {
        MarkedOnlyIfNamed(items, C, c[..n]);
        assert forall i :: 0 <= i < |c[..n]| ==> c[..n][i].item != k;
        SumWhereMark(Values(items), d.selected, k);
        SumWhereMark(Weights(items), d.selected, k);
      }
    }
  }

  /** Feasibility: the marked items together weigh at most the capacity. */
  lemma DecodeFeasible(items: seq<Item>, C: int, c: seq<Gene>)
    requires IndicesIn(c, |items|) && Distinct(c) && 0 <= C
    ensures SumWhere(Weights(items), Decode(items, C, c).selected) <= C
  {
    DecodeAccounting(items, C, c);
  }

  /** Once the gene at position `i` has been visited, later genes (which name other
      items) do not change whether its item is marked. */
  lemma {:induction false} MarkSettled(items: seq<Item>, C: int, c: seq<Gene>, i: int, m: int)
    requires IndicesIn(c, |items|) && Distinct(c) && 0 <= i < m <= |c|
    ensures Decode(items, C, c[..m]).selected[c[i].item] == Decode(items, C, c[..i + 1]).selected[c[i].item]
    decreases m
  {
    if m > i + 1 {
      MarkSettled(items, C, c, i, m - 1);
      DecodePrefix(items, C, c, m - 1);
    }
  }

  /** An item is taken exactly when it fits under the capacity on top of the weight
      taken before it; otherwise it is skipped. */
  lemma TakenIffFits(items: seq<Item>, C: int, c: seq<Gene>, i: int)
    requires IndicesIn(c, |items|) && Distinct(c) && 0 <= i < |c|
    ensures IndicesIn(c[..i], |items|)
    ensures Decode(items, C, c).selected[c[i].item] <==>
              Fits(items, C, Decode(items, C, c[..i]).weight, c[i].item)
  {
    var k := c[i].item;
    DecodePrefix(items, C, c, i);
    MarkedOnlyIfNamed(items, C, c[..i]);
    assert forall j :: 0 <= j < |c[..i]| ==> c[..i][j].item != k;
    MarkSettled(items, C, c, i, |c|);
    assert c[..|c|] == c;
  }

  /** With positive weights the running weight only grows. */
  lemma {:induction false} WeightGrows(items: seq<Item>, C: int, c: seq<Gene>, i: int)
    requires IndicesIn(c, |items|) && PositiveWeights(items) && 0 <= i <= |c|
    ensures IndicesIn(c[..i], |items|)
    ensures Decode(items, C, c[..i]).weight <= Decode(items, C, c).weight
    decreases |c| - i
  {
    if i < |c| {
      DecodePrefix(items, C, c, i);
      WeightGrows(items, C, c, i + 1);
    } else {
      assert c[..i] == c;
    }
  }

  /** A mark, once set, is never cleared by later genes. */
  lemma {:induction false} MarkStays(items: seq<Item>, C: int, c: seq<Gene>, i: int, m: int, k: int)
    requires IndicesIn(c, |items|) && 0 <= i <= m <= |c| && 0 <= k < |items|
    requires IndicesIn(c[..i], |items|) && IndicesIn(c[..m], |items|)
    requires Decode(items, C, c[..i]).selected[k]
    ensures Decode(items, C, c[..m]).selected[k]
    decreases m
  {
    if m > i {
      MarkStays(items, C, c, i, m - 1, k);
      DecodePrefix(items, C, c, m - 1);
    }
  }

  /** The greedy selection is maximal: no skipped item would still fit. */
  lemma {:induction false} DecodeMaximal(items: seq<Item>, C: int, c: seq<Gene>)
    requires IndicesIn(c, |items|) && PositiveWeights(items)
    ensures forall i :: 0 <= i < |c| && !Decode(items, C, c).selected[c[i].item] ==>
              Decode(items, C, c).weight + items[c[i].item].weight > C
  {
    forall i | 0 <= i < |c| && !Decode(items, C, c).selected[c[i].item]
      ensures Decode(items, C, c).weight + items[c[i].item].weight > C
    {
      DecodePrefix(items, C, c, i);
      WeightGrows(items, C, c, i);
      if Fits(items, C, Decode(items, C, c[..i]).weight, c[i].item) {
        assert c[..|c|] == c;
        MarkStays(items, C, c, i + 1, |c|, c[i].item);
        assert false;
      }
    }
  }

  /** When every item is heavier than the capacity (for instance C = 0 with positive
      weights) nothing is selected and the value is 0. */
  lemma {:induction false} NothingFits(items: seq<Item>, C: int, c: seq<Gene>)
    requires IndicesIn(c, |items|)
    requires forall k :: 0 <= k < |items| ==> items[k].weight > C
    ensures Decode(items, C, c).value == 0 && Decode(items, C, c).weight == 0
    ensures forall k :: 0 <= k < |items| ==> !Decode(items, C, c).selected[k]
    decreases |c|
  {
    if c != [] {
      NothingFits(items, C, c[..|c| - 1]);
    }
  }

  /** The worked example: capacity 10, items (w=5,v=10), (w=4,v=40), (w=6,v=30), genes
      ranking item 1, then item 2, then item 0. Items 1 and 2 are taken, item 0 is
      skipped, and the value is 70. */
  lemma WorkedExample()
    ensures var items := [Item(5, 10, 2.0), Item(4, 40, 10.0), Item(6, 30, 5.0)];
            var c := [Gene(9.0, 1), Gene(4.0, 2), Gene(1.0, 0)];
            Decode(items, 10, c) == Decoding(10, 70, [false, true, true])
  {
    var items := [Item(5, 10, 2.0), Item(4, 40, 10.0), Item(6, 30, 5.0)];
    var c := [Gene(9.0, 1), Gene(4.0, 2), Gene(1.0, 0)];
    assert c[..0] == [] && c[..1] == [c[0]] && c[..2] == [c[0], c[1]] && c[..3] == c;
    DecodePrefix(items, 10, c, 0);
    DecodePrefix(items, 10, c, 1);
    DecodePrefix(items, 10, c, 2);
  }
}
