/**
  The evolution engine: biased crossover (`crossover`), mutation (`mutate`) and the
  generation step (`evolve_population`), plus the driver that initialises,
  evaluates and evolves for a number of generations.

  Every random draw of the program is an explicit argument here; `requires` clauses
  state the range of the distribution it comes from.
 */
module Evolution {
  import opened Multisets
  import opened Chromosomes
  import opened Decoder
  import opened Population

  /** Probability of inheriting the elite parent's key (`rhoe`). */
  const Rhoe: real := 0.7
  /** Probability that a gene of an offspring gets a fresh key. */
  const MutationRate: real := 0.05

  /** Population sizing: P individuals, of which the first `eliteSize` survive and
      `mutantSize` are freshly generated; the rest are crossover offspring. */
  datatype Params = Params(popSize: nat, eliteSize: nat, mutantSize: nat) {
    /** Parents are drawn from [0, eliteSize) and [eliteSize, popSize). */
    predicate Valid() {
      0 < eliteSize < popSize && eliteSize + mutantSize <= popSize
    }

    function CrossoverSize(): nat
      requires Valid()
    {
      popSize - eliteSize - mutantSize
    }
  }

  /** The sizing `evolve_population` computes: `elite_size = (int)(P * pe)` and
      `mutant_size = (int)(P * pm)`, where the cast truncates the non-negative product. */
  function Sizing(popSize: nat, pe: real, pm: real): (prm: Params)
    requires 0.0 <= pe && 0.0 <= pm
    ensures prm.popSize == popSize
    ensures prm.eliteSize as real <= popSize as real * pe < prm.eliteSize as real + 1.0
    ensures prm.mutantSize as real <= popSize as real * pm < prm.mutantSize as real + 1.0
  {
    Params(popSize, (popSize as real * pe).Floor as nat, (popSize as real * pm).Floor as nat)
  }

  /** The program's constants: P = 100, pe = 0.3, pm = 0.2. */
  const SourceParams: Params := Sizing(100, 0.3, 0.2)

  /** The program's sizing is 30 elite, 20 mutants and 50 crossover offspring, and it
      meets what the generation step needs of its parameters. */
  lemma SourceParamsValid()
    ensures SourceParams == Params(100, 30, 20)
    ensures SourceParams.Valid()
    ensures SourceParams.eliteSize + SourceParams.mutantSize + SourceParams.CrossoverSize() == SourceParams.popSize
    ensures SourceParams.CrossoverSize() == 50
  {
  }

  // ---------------------------------------------------------------------------
  // Crossover

  /** The offspring of `crossover` before its sort: a copy of the elite parent whose
      keys at positions `cut` and beyond come from either parent, position by position. */
  function Recombine(elite: seq<Gene>, other: seq<Gene>, cut: int, inherit: seq<real>): (r: seq<Gene>)
    requires |other| == |elite| && |inherit| == |elite| && 1 <= cut < |elite|
    ensures |r| == |elite|
    ensures Items(r) == Items(elite)
    ensures forall i :: 0 <= i < cut ==> r[i].key == elite[i].key
    ensures forall i :: cut <= i < |r| ==> r[i].key == elite[i].key || r[i].key == other[i].key
    ensures forall i :: cut <= i < |r| && inherit[i] < Rhoe ==> r[i].key == elite[i].key
    ensures forall i :: cut <= i < |r| && Rhoe <= inherit[i] ==> r[i].key == other[i].key
  {
    seq(|elite|, i requires 0 <= i < |elite| =>
      Gene(if i < cut || inherit[i] < Rhoe then elite[i].key else other[i].key, elite[i].item))
  }

  /** Gene `g` stems from position `i` of the elite parent: it keeps that position's
      item, and its key is the elite key there or, at or past the cut, the other
      parent's key there. */
  predicate InheritedAt(elite: seq<Gene>, other: seq<Gene>, cut: int, g: Gene, i: int)
    requires |other| == |elite| && 0 <= i < |elite|
  {
    g.item == elite[i].item && (g.key == elite[i].key || (cut <= i && g.key == other[i].key))
  }

  /** Gene `g` stems from some position of the elite parent. */
  predicate Inherited(elite: seq<Gene>, other: seq<Gene>, cut: int, g: Gene)
    requires |other| == |elite|
  {
    exists i :: 0 <= i < |elite| && InheritedAt(elite, other, cut, g, i)
  }

  /** Every gene of `r` stems from some position of the elite parent. */
  predicate InheritedFrom(elite: seq<Gene>, other: seq<Gene>, cut: int, r: seq<Gene>)
    requires |other| == |elite|
  {
    forall j :: 0 <= j < |r| ==> Inherited(elite, other, cut, r[j])
  }

  lemma RecombineOrigins(elite: seq<Gene>, other: seq<Gene>, cut: int, inherit: seq<real>, r: seq<Gene>)
    requires |other| == |elite| && |inherit| == |elite| && 1 <= cut < |elite|
    requires multiset(r) == multiset(Recombine(elite, other, cut, inherit))
    ensures InheritedFrom(elite, other, cut, r)
  {
    var m := Recombine(elite, other, cut, inherit);
    PermutationMembers(m, r);
    forall j | 0 <= j < |r|
      ensures Inherited(elite, other, cut, r[j])
    {
      var k :| 0 <= k < |m| && r[j] == m[k];
      assert Items(m)[k] == Items(elite)[k];
      assert InheritedAt(elite, other, cut, r[j], k);
    }
  }

  /** `crossover`: biased recombination with cut point `cut` in [1, N-1]; position
      `i >= cut` keeps the elite key when its draw `inherit[i]` is below `rhoe`.
      The offspring is re-sorted. */
  function Crossover(elite: seq<Gene>, other: seq<Gene>, cut: int, inherit: seq<real>): (r: seq<Gene>)
    requires |other| == |elite| && |inherit| == |elite| && 1 <= cut <= |elite| - 1
    requires forall i :: cut <= i < |elite| ==> IsKeyDraw(inherit[i])
    ensures |r| == |elite|
    ensures Sorted(r)
    ensures multiset(r) == multiset(Recombine(elite, other, cut, inherit))
    ensures multiset(Items(r)) == multiset(Items(elite))
    ensures InheritedFrom(elite, other, cut, r)
  {
    var m := Recombine(elite, other, cut, inherit);
    var r := SortDesc(m);
    RecombineOrigins(elite, other, cut, inherit, r);
    r
  }

  // ---------------------------------------------------------------------------
  // Mutation

  /** The chromosome of `mutate` before its sort: the gene at position `i` gets key
      `newKeys[i] * density` of its own item when its roll is below the mutation rate. */
  function Reroll(items: seq<Item>, c: seq<Gene>, rolls: seq<real>, newKeys: seq<real>): (r: seq<Gene>)
    requires IndicesIn(c, |items|) && |rolls| == |c| && |newKeys| == |c|
    ensures |r| == |c|
    ensures Items(r) == Items(c)
    ensures forall i :: 0 <= i < |c| && MutationRate <= rolls[i] ==> r[i] == c[i]
    ensures forall i :: 0 <= i < |c| && rolls[i] < MutationRate ==>
              r[i].key == newKeys[i] * items[c[i].item].density
  {
    seq(|c|, i requires 0 <= i < |c| =>
      if rolls[i] < MutationRate then Gene(newKeys[i] * items[c[i].item].density, c[i].item) else c[i])
  }

  /** Gene `g` stems from position `i` of `c`: it keeps that position's item, and its
      key is either the old key or the new key draw there times the item's density. */
  predicate MutatedAt(items: seq<Item>, c: seq<Gene>, newKeys: seq<real>, g: Gene, i: int)
    requires IndicesIn(c, |items|) && |newKeys| == |c| && 0 <= i < |c|
  {
    g.item == c[i].item && (g.key == c[i].key || g.key == newKeys[i] * items[c[i].item].density)
  }

  /** Gene `g` stems from some position of `c`. */
  predicate Mutated(items: seq<Item>, c: seq<Gene>, newKeys: seq<real>, g: Gene)
    requires IndicesIn(c, |items|) && |newKeys| == |c|
  {
    exists i :: 0 <= i < |c| && MutatedAt(items, c, newKeys, g, i)
  }

  /** Every gene of `r` stems from some position of `c`. */
  predicate MutatedFrom(items: seq<Item>, c: seq<Gene>, newKeys: seq<real>, r: seq<Gene>)
    requires IndicesIn(c, |items|) && |newKeys| == |c|
  {
    forall j :: 0 <= j < |r| ==> Mutated(items, c, newKeys, r[j])
  }

  lemma RerollOrigins(items: seq<Item>, c: seq<Gene>, rolls: seq<real>, newKeys: seq<real>, r: seq<Gene>)
    requires IndicesIn(c, |items|) && |rolls| == |c| && |newKeys| == |c|
    requires multiset(r) == multiset(Reroll(items, c, rolls, newKeys))
    ensures MutatedFrom(items, c, newKeys, r)
  {
    var m := Reroll(items, c, rolls, newKeys);
    PermutationMembers(m, r);
    forall j | 0 <= j < |r|
      ensures Mutated(items, c, newKeys, r[j])
    {
      var k :| 0 <= k < |m| && r[j] == m[k];
      assert Items(m)[k] == Items(c)[k];
      assert MutatedAt(items, c, newKeys, r[j], k);
    }
  }

  predicate AreRolls(rolls: seq<real>) {
    forall i :: 0 <= i < |rolls| ==> 0.0 <= rolls[i] < 1.0
  }

  /** No roll falls under the mutation rate, so no gene is re-keyed. */
  predicate NoHits(rolls: seq<real>) {
    forall i :: 0 <= i < |rolls| ==> MutationRate <= rolls[i]
  }

  /** Without hits, re-keying changes nothing, so a sorted chromosome stays as it was. */
  lemma {:induction false} RerollWithoutHits(items: seq<Item>, c: seq<Gene>, rolls: seq<real>, newKeys: seq<real>)
    requires IndicesIn(c, |items|) && |rolls| == |c| && |newKeys| == |c|
    requires NoHits(rolls) && Sorted(c)
    ensures SortDesc(Reroll(items, c, rolls, newKeys)) == c
  {
    assert Reroll(items, c, rolls, newKeys) == c;
    SortDescOfSorted(c);
  }

  /** `mutate`: per-gene rolls in [0, 1) and new key draws; the result is re-sorted.
      When no roll is below the mutation rate, a sorted chromosome comes back unchanged. */
  function Mutate(items: seq<Item>, c: seq<Gene>, rolls: seq<real>, newKeys: seq<real>): (r: seq<Gene>)
    requires IndicesIn(c, |items|) && |rolls| == |c| && |newKeys| == |c|
    requires AreRolls(rolls) && AreKeyDraws(newKeys)
    ensures |r| == |c|
    ensures Sorted(r)
    ensures multiset(r) == multiset(Reroll(items, c, rolls, newKeys))
    ensures multiset(Items(r)) == multiset(Items(c))
    ensures MutatedFrom(items, c, newKeys, r)
    ensures NoHits(rolls) && Sorted(c) ==> r == c
  {
    var m := Reroll(items, c, rolls, newKeys);
    var r := SortDesc(m);
    RerollOrigins(items, c, rolls, newKeys, r);
    if NoHits(rolls) && Sorted(c) then
      RerollWithoutHits(items, c, rolls, newKeys);
      r
    else
      r
  }

  // ---------------------------------------------------------------------------
  // Generation step

  /** The draws for one crossover offspring: parent indices, cut point, the per-gene
      inheritance draws, then the mutation rolls and new keys. */
  datatype OffspringDraws = OffspringDraws(
    eliteParent: int, otherParent: int, cut: int,
    inherit: seq<real>, rolls: seq<real>, newKeys: seq<real>)

  predicate ValidOffspringDraws(prm: Params, n: nat, d: OffspringDraws) {
    && 0 <= d.eliteParent < prm.eliteSize
    && prm.eliteSize <= d.otherParent < prm.popSize
    && 1 <= d.cut <= n - 1
    && |d.inherit| == n && (forall i :: d.cut <= i < n ==> IsKeyDraw(d.inherit[i]))
    && |d.rolls| == n && AreRolls(d.rolls)
    && |d.newKeys| == n && AreKeyDraws(d.newKeys)
  }

  /** The draws of one generation: one row of key draws per mutant, then one record
      per crossover offspring. */
  datatype GenerationDraws = GenerationDraws(mutants: seq<seq<real>>, offspring: seq<OffspringDraws>)

  predicate ValidGenerationDraws(prm: Params, n: nat, g: GenerationDraws) {
    && prm.Valid()
    && |g.mutants| == prm.mutantSize
    && (forall i :: 0 <= i < |g.mutants| ==> |g.mutants[i]| == n && AreKeyDraws(g.mutants[i]))
    && |g.offspring| == prm.CrossoverSize()
    && (forall i :: 0 <= i < |g.offspring| ==> ValidOffspringDraws(prm, n, g.offspring[i]))
  }

  /** One crossover offspring: recombine an elite and a non-elite parent, mutate, and
      leave the fitness unevaluated (0). */
  function Breed(items: seq<Item>, prm: Params, pop: seq<Individual>, d: OffspringDraws): (r: Individual)
    requires prm.Valid() && |pop| == prm.popSize && WellFormed(items, pop)
    requires ValidOffspringDraws(prm, |items|, d)
    ensures r.fitness == 0
    ensures IsChromosome(r.chromosome, |items|)
  {
    var e := pop[d.eliteParent].chromosome;
    var o := pop[d.otherParent].chromosome;
    PermutationFacts(e, |items|);
    PermutationFacts(o, |items|);
    var x := Crossover(e, o, d.cut, d.inherit);
    PermutationFacts(x, |items|);
    Individual(Mutate(items, x, d.rolls, d.newKeys), 0)
  }

  /** The population `evolve_population` assembles before re-evaluating it: the elite
      copied unchanged, then the mutants, then the crossover offspring. */
  function NextPopulation(items: seq<Item>, prm: Params, pop: seq<Individual>, g: GenerationDraws): (r: seq<Individual>)
    requires prm.Valid() && |pop| == prm.popSize && WellFormed(items, pop)
    requires ValidGenerationDraws(prm, |items|, g)
    ensures |r| == prm.popSize
    ensures r[..prm.eliteSize] == pop[..prm.eliteSize]
    ensures forall i :: prm.eliteSize <= i < |r| ==> r[i].fitness == 0
    ensures WellFormed(items, r) && Decodable(items, r)
  {
    var mutants := GeneratePopulation(items, g.mutants);
    var children := seq(prm.CrossoverSize(), i requires 0 <= i < prm.CrossoverSize() =>
      Breed(items, prm, pop, g.offspring[i]));
    var r := pop[..prm.eliteSize] + mutants + children;
    WellFormedDecodable(items, r);
    r
  }

  /** `evolve_population`: assemble the next population and evaluate it. */
  function Evolve(items: seq<Item>, C: int, prm: Params, pop: seq<Individual>, g: GenerationDraws): (r: seq<Individual>)
    requires prm.Valid() && |pop| == prm.popSize && WellFormed(items, pop)
    requires ValidGenerationDraws(prm, |items|, g)
    ensures |r| == prm.popSize
    ensures WellFormed(items, r)
    ensures Evaluated(items, C, r)
  {
    var next := NextPopulation(items, prm, pop, g);
    WellFormedDecodable(items, next);
    var r := EvaluatePopulation(items, C, next);
    EvaluationFacts(items, C, next, r);
    EvaluationKeepsWellFormed(items, C, next, r);
    r
  }

  /** The generation step's result is one evaluation of the population it assembled. */
  lemma EvolveEvaluatesNext(items: seq<Item>, C: int, prm: Params, pop: seq<Individual>, g: GenerationDraws)
    requires prm.Valid() && |pop| == prm.popSize && WellFormed(items, pop)
    requires ValidGenerationDraws(prm, |items|, g)
    ensures IsEvaluationOf(items, C, NextPopulation(items, prm, pop, g), Evolve(items, C, prm, pop, g))
  {
  }

  /** Elitism: when the input population is evaluated, each of its elite individuals
      (chromosome and fitness) is present in any evaluation of a population that
      starts with a copy of the elite, as the next population does. */
  lemma ElitesSurvive(items: seq<Item>, C: int, e: nat, pop: seq<Individual>,
                      next: seq<Individual>, r: seq<Individual>)
    requires e <= |pop| && e <= |next| && next[..e] == pop[..e]
    requires Evaluated(items, C, pop) && Decodable(items, next)
    requires IsEvaluationOf(items, C, next, r)
    ensures forall i :: 0 <= i < e ==> pop[i] in r
  {
    EvaluationFacts(items, C, next, r);
    forall i | 0 <= i < e
      ensures pop[i] in r
    {
      assert next[..e][i] == pop[..e][i];
      assert Score(items, C, next[i]) == pop[i];
    }
  }

  /** Monotone best fitness: the best fitness after a generation is at least the
      best fitness before it, whichever order the unstable sort leaves ties in. */
  lemma BestNeverDecreases(items: seq<Item>, C: int, prm: Params, pop: seq<Individual>,
                           g: GenerationDraws, r: seq<Individual>)
    requires prm.Valid() && |pop| == prm.popSize && WellFormed(items, pop)
    requires Evaluated(items, C, pop)
    requires ValidGenerationDraws(prm, |items|, g)
    requires IsEvaluationOf(items, C, NextPopulation(items, prm, pop, g), r)
    ensures |r| == prm.popSize
    ensures r[0].fitness >= pop[0].fitness
  {
    var next := NextPopulation(items, prm, pop, g);
    EvaluationFacts(items, C, next, r);
    ElitesSurvive(items, C, prm.eliteSize, pop, next, r);
    var k :| 0 <= k < |r| && r[k] == pop[0];
    assert k == 0 || r[0].fitness >= r[k].fitness;
  }

  // ---------------------------------------------------------------------------
  // The run

  predicate AllValid(prm: Params, n: nat, gens: seq<GenerationDraws>) {
    forall i :: 0 <= i < |gens| ==> ValidGenerationDraws(prm, n, gens[i])
  }

  /** One `evolve_population` per element of `gens`. */
  function Generations(items: seq<Item>, C: int, prm: Params, pop: seq<Individual>,
                       gens: seq<GenerationDraws>): (r: seq<Individual>)
    requires prm.Valid() && |pop| == prm.popSize && WellFormed(items, pop)
    requires Evaluated(items, C, pop)
    requires AllValid(prm, |items|, gens)
    ensures |r| == prm.popSize
    ensures WellFormed(items, r) && Evaluated(items, C, r)
    ensures r[0].fitness >= pop[0].fitness
    decreases |gens|
  {
    if gens == [] then pop
    else
      var next := Evolve(items, C, prm, pop, gens[0]);
      BestNeverDecreases(items, C, prm, pop, gens[0], next);
      Generations(items, C, prm, next, gens[1..])
  }

  /** The core of `main`: generate and evaluate the initial population, evolve it once
      per element of `gens`, and report the best individual. */
  function Solve(items: seq<Item>, C: int, prm: Params, init: seq<seq<real>>,
                 gens: seq<GenerationDraws>): (best: Individual)
    requires prm.Valid() && |init| == prm.popSize
    requires forall i :: 0 <= i < |init| ==> |init[i]| == |items| && AreKeyDraws(init[i])
    requires AllValid(prm, |items|, gens)
    ensures IsChromosome(best.chromosome, |items|) && IndicesIn(best.chromosome, |items|)
    ensures best.fitness == Decode(items, C, best.chromosome).value
    ensures forall i :: 0 <= i < |init| ==>
              best.fitness >= Decode(items, C, RandomChromosome(items, init[i])).value
  {
    var pop0 := GeneratePopulation(items, init);
    WellFormedDecodable(items, pop0);
    var ranked := EvaluatePopulation(items, C, pop0);
    EvaluationFacts(items, C, pop0, ranked);
    EvaluationKeepsWellFormed(items, C, pop0, ranked);
    InitialBest(items, C, init, pop0, ranked);
    var last := Generations(items, C, prm, ranked, gens);
    PermutationFacts(last[0].chromosome, |items|);
    last[0]
  }

  lemma InitialBest(items: seq<Item>, C: int, init: seq<seq<real>>, pop0: seq<Individual>,
                    ranked: seq<Individual>)
    requires forall i :: 0 <= i < |init| ==> |init[i]| == |items| && AreKeyDraws(init[i])
    requires pop0 == GeneratePopulation(items, init) && Decodable(items, pop0)
    requires IsEvaluationOf(items, C, pop0, ranked) && |ranked| > 0
    ensures forall i :: 0 <= i < |init| ==>
              ranked[0].fitness >= Decode(items, C, RandomChromosome(items, init[i])).value
  {
    EvaluationFacts(items, C, pop0, ranked);
    forall i | 0 <= i < |init|
      ensures ranked[0].fitness >= Decode(items, C, RandomChromosome(items, init[i])).value
    {
      var k :| 0 <= k < |ranked| && ranked[k] == Score(items, C, pop0[i]);
      assert k == 0 || ranked[0].fitness >= ranked[k].fitness;
    }
  }
}
