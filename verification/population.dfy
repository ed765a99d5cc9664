/**
  The population manager: random chromosomes (`generate_population` and the
  mutants of `evolve_population`) and evaluation (`evaluate_population`).

  An individual pairs a chromosome with its cached fitness. Evaluation decodes every
  individual and sorts the population by fitness, highest first. The program uses
  `std::sort`, which is not stable, so every property of evaluation is stated for
  any permutation of the scored population that is non-increasing in fitness
  (`IsEvaluationOf`); `EvaluatePopulation` computes one such permutation.
 */
module Population {
  import opened Multisets
  import opened Chromosomes
  import opened Decoder

  datatype Individual = Individual(chromosome: seq<Gene>, fitness: int)

  /** The genes of a fresh chromosome before sorting: gene `j` ranks item `j`. */
  function Unsorted(items: seq<Item>, draws: seq<real>): (u: seq<Gene>)
    requires |draws| == |items|
  {
    seq(|items|, j requires 0 <= j < |items| => Gene(draws[j] * items[j].density, j))
  }

  /** Every gene of `c` names an item and carries that item's draw times its density. */
  predicate KeysFromDraws(items: seq<Item>, draws: seq<real>, c: seq<Gene>)
    requires |draws| == |items|
  {
    forall i :: 0 <= i < |c| ==>
      0 <= c[i].item < |items| && c[i].key == draws[c[i].item] * items[c[i].item].density
  }

  lemma UnsortedFacts(items: seq<Item>, draws: seq<real>, c: seq<Gene>)
    requires |draws| == |items|
    requires multiset(c) == multiset(Unsorted(items, draws))
    ensures Items(Unsorted(items, draws)) == Iota(|items|)
    ensures KeysFromDraws(items, draws, c)
  {
    var u := Unsorted(items, draws);
    assert Items(u) == Iota(|items|);
    PermutationMembers(u, c);
    forall i | 0 <= i < |c|
      ensures 0 <= c[i].item < |items| && c[i].key == draws[c[i].item] * items[c[i].item].density
    {
      var j :| 0 <= j < |u| && c[i] == u[j];
      assert u[j] == Gene(draws[j] * items[j].density, j);
    }
  }

  /** A fresh chromosome: gene `j` gets key `draws[j] * density(j)` and item index `j`,
      then the genes are sorted in descending order. */
  function RandomChromosome(items: seq<Item>, draws: seq<real>): (c: seq<Gene>)
    requires |draws| == |items| && AreKeyDraws(draws)
    ensures IsChromosome(c, |items|)
    ensures KeysFromDraws(items, draws, c)
  {
    var u := Unsorted(items, draws);
    var c := SortDesc(u);
    UnsortedFacts(items, draws, c);
    assert multiset(Items(c)) == multiset(Items(u)) == multiset(Iota(|items|));
    c
  }

  /** `generate_population`: one unevaluated individual per row of draws. */
  function GeneratePopulation(items: seq<Item>, draws: seq<seq<real>>): (pop: seq<Individual>)
    requires forall i :: 0 <= i < |draws| ==> |draws[i]| == |items| && AreKeyDraws(draws[i])
    ensures |pop| == |draws|
    ensures forall i :: 0 <= i < |pop| ==>
              pop[i].fitness == 0 && pop[i].chromosome == RandomChromosome(items, draws[i])
    ensures WellFormed(items, pop)
  {
    seq(|draws|, i requires 0 <= i < |draws| => Individual(RandomChromosome(items, draws[i]), 0))
  }

  /** Every chromosome of the population has one gene per item, in descending order. */
  predicate WellFormed(items: seq<Item>, pop: seq<Individual>) {
    forall i :: 0 <= i < |pop| ==> IsChromosome(pop[i].chromosome, |items|)
  }

  /** Every chromosome of the population can be decoded. */
  predicate Decodable(items: seq<Item>, pop: seq<Individual>) {
    forall i :: 0 <= i < |pop| ==> IndicesIn(pop[i].chromosome, |items|)
  }

  lemma WellFormedDecodable(items: seq<Item>, pop: seq<Individual>)
    requires WellFormed(items, pop)
    ensures Decodable(items, pop)
    ensures forall i :: 0 <= i < |pop| ==> Distinct(pop[i].chromosome)
  {
    forall i | 0 <= i < |pop|
      ensures IndicesIn(pop[i].chromosome, |items|) && Distinct(pop[i].chromosome)
    {
      PermutationFacts(pop[i].chromosome, |items|);
    }
  }

  predicate FitnessSorted(pop: seq<Individual>) {
    forall i, j :: 0 <= i < j < |pop| ==> pop[i].fitness >= pop[j].fitness
  }

  /** The individual with its fitness recomputed by the decoder. */
  function Score(items: seq<Item>, C: int, ind: Individual): Individual
    requires IndicesIn(ind.chromosome, |items|)
  {
    Individual(ind.chromosome, Decode(items, C, ind.chromosome).value)
  }

  /** The decoding loop of `evaluate_population`, before the sort. */
  function Rescore(items: seq<Item>, C: int, pop: seq<Individual>): (r: seq<Individual>)
    requires Decodable(items, pop)
    ensures |r| == |pop|
    ensures forall i :: 0 <= i < |pop| ==> r[i] == Score(items, C, pop[i])
  {
    seq(|pop|, i requires 0 <= i < |pop| => Score(items, C, pop[i]))
  }

  /** `x` is some individual of `pop` re-scored by the decoder. */
  predicate ScoredFrom(items: seq<Item>, C: int, pop: seq<Individual>, x: Individual)
    requires Decodable(items, pop)
  {
    exists j :: 0 <= j < |pop| && x == Score(items, C, pop[j])
  }

  /** Every fitness is the decoded value of its chromosome and the population is
      ranked best first. */
  predicate Evaluated(items: seq<Item>, C: int, pop: seq<Individual>) {
    && Decodable(items, pop)
    && (forall i :: 0 <= i < |pop| ==> pop[i].fitness == Decode(items, C, pop[i].chromosome).value)
    && FitnessSorted(pop)
  }

  /** `r` is a possible outcome of `evaluate_population` on `pop`: a permutation of the
      re-scored individuals that is non-increasing in fitness. */
  predicate IsEvaluationOf(items: seq<Item>, C: int, pop: seq<Individual>, r: seq<Individual>)
    requires Decodable(items, pop)
  {
    multiset(r) == multiset(Rescore(items, C, pop)) && FitnessSorted(r)
  }

  // The fitness sort is a second instance of the insertion sort on genes
  // (`Chromosomes.Insert` and `Chromosomes.SortDesc`), ordered by fitness alone.

  lemma HeadAboveInserted(x: Individual, s: seq<Individual>, t: seq<Individual>)
    requires FitnessSorted(s) && s != [] && x.fitness < s[0].fitness
    requires multiset(t) == multiset(s[1..]) + multiset{x}
    ensures forall j :: 0 <= j < |t| ==> s[0].fitness >= t[j].fitness
  {
    InsertedMembers(s[1..], x, t);
    forall j | 0 <= j < |t|
      ensures s[0].fitness >= t[j].fitness
    {
      if t[j] != x {
        var k :| 0 <= k < |s[1..]| && s[1..][k] == t[j];
        assert s[k + 1] == t[j];
      }
    }
  }

  function InsertByFitness(x: Individual, s: seq<Individual>): (r: seq<Individual>)
    requires FitnessSorted(s)
    ensures FitnessSorted(r)
    ensures multiset(r) == multiset(s) + multiset{x}
  {
    if s == [] || x.fitness >= s[0].fitness then
      [x] + s
    else
      var t := InsertByFitness(x, s[1..]);
      HeadAboveInserted(x, s, t);
      ConsMultiset(s[0], s[1..], t, x);
      assert s == [s[0]] + s[1..];
      [s[0]] + t
  }

  /** Orders individuals by fitness, highest first. */
  function SortByFitness(s: seq<Individual>): (r: seq<Individual>)
    ensures FitnessSorted(r)
    ensures multiset(r) == multiset(s)
  {
    if s == [] then []
    else
      assert s == [s[0]] + s[1..];
      InsertByFitness(s[0], SortByFitness(s[1..]))
  }

  /** `evaluate_population`: decode every individual, store the value as its fitness,
      and rank the population by fitness. */
  function EvaluatePopulation(items: seq<Item>, C: int, pop: seq<Individual>): (r: seq<Individual>)
    requires Decodable(items, pop)
    ensures IsEvaluationOf(items, C, pop, r)
  {
    SortByFitness(Rescore(items, C, pop))
  }

  /** What any outcome of evaluation guarantees: the population keeps its size; every
      individual is an input chromosome with the fitness the decoder gives it; every
      input chromosome is still present; the result is evaluated. */
  lemma EvaluationFacts(items: seq<Item>, C: int, pop: seq<Individual>, r: seq<Individual>)
    requires Decodable(items, pop) && IsEvaluationOf(items, C, pop, r)
    ensures |r| == |pop|
    ensures forall i :: 0 <= i < |r| ==> ScoredFrom(items, C, pop, r[i])
    ensures forall j :: 0 <= j < |pop| ==> Score(items, C, pop[j]) in r
    ensures Evaluated(items, C, r)
  {
    var s := Rescore(items, C, pop);
    assert |r| == |multiset(r)| == |multiset(s)| == |s|;
    EvaluationOrigins(items, C, pop, r);
    EvaluationKeepsAll(items, C, pop, r);
  }

  lemma EvaluationOrigins(items: seq<Item>, C: int, pop: seq<Individual>, r: seq<Individual>)
    requires Decodable(items, pop) && IsEvaluationOf(items, C, pop, r)
    ensures forall i :: 0 <= i < |r| ==> ScoredFrom(items, C, pop, r[i])
    ensures Decodable(items, r)
    ensures forall i :: 0 <= i < |r| ==> r[i].fitness == Decode(items, C, r[i].chromosome).value
  {
    var s := Rescore(items, C, pop);
    PermutationMembers(s, r);
    forall i | 0 <= i < |r|
      ensures ScoredFrom(items, C, pop, r[i])
      ensures IndicesIn(r[i].chromosome, |items|)
    {
      var j :| 0 <= j < |s| && r[i] == s[j];
      assert r[i] == Score(items, C, pop[j]);
    }
  }

  lemma EvaluationKeepsAll(items: seq<Item>, C: int, pop: seq<Individual>, r: seq<Individual>)
    requires Decodable(items, pop) && IsEvaluationOf(items, C, pop, r)
    ensures forall j :: 0 <= j < |pop| ==> Score(items, C, pop[j]) in r
  {
    var s := Rescore(items, C, pop);
    forall j | 0 <= j < |pop|
      ensures Score(items, C, pop[j]) in r
    {
      assert s[j] in multiset(s);
      assert s[j] in multiset(r);
    }
  }

  /** Evaluation keeps a well-formed population well-formed. */
  lemma EvaluationKeepsWellFormed(items: seq<Item>, C: int, pop: seq<Individual>, r: seq<Individual>)
    requires WellFormed(items, pop) && Decodable(items, pop) && IsEvaluationOf(items, C, pop, r)
    ensures WellFormed(items, r)
  {
    EvaluationFacts(items, C, pop, r);
    forall i | 0 <= i < |r|
      ensures IsChromosome(r[i].chromosome, |items|)
    {
      var j :| 0 <= j < |pop| && r[i] == Score(items, C, pop[j]);
    }
  }
}
