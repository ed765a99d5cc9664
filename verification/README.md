# BRKGA for the 0/1 knapsack problem — a Dafny model

This project models the engine of a Biased Random-Key Genetic Algorithm (BRKGA)
that solves the 0/1 knapsack problem. A candidate solution is a chromosome: one
`(key, item)` gene per item, kept in descending `(key, item)` order. A greedy
decoder walks the genes in that order and takes every item that still fits under
the capacity `C`. The value it collects is the individual's fitness. Each
generation copies the elite, adds freshly generated mutants and adds offspring of
biased crossover followed by mutation. It then re-evaluates the population and
ranks it by fitness.

Modules, following the program's components:

- `Chromosomes` (chromosomes.dfy): items, genes, the descending pair order that
  `sort(rbegin, rend)` produces, the sort itself, and permutations of item indices.
- `Decoder` (decoder.dfy): `decode_chromosome` as a pure function over prefixes,
  the loop as a method, and the decoder's properties.
- `Population` (population.dfy): individuals, random chromosomes,
  `generate_population`, `evaluate_population`.
- `Evolution` (evolution.dfy): `crossover`, `mutate`, `evolve_population`, and the
  generation loop of `main`.
- `Multisets` (multisets.dfy): generic facts about sequences and their multisets.

Modelling choices:

- Keys are `real`. Only their order matters.
- An item's density (value/weight) is an abstract `real` field.
- Every random draw is an explicit argument. `requires` clauses give the range of
  the distribution it comes from:
  - key draws lie in [0.001, 0.999);
  - mutation rolls lie in [0, 1);
  - the cut lies in [1, N-1];
  - the elite parent is in [0, elite_size) and the other parent in
    [elite_size, P).
- Integers are unbounded.
- The population sizing is generic (`Params`). `SourceParams` is the program's
  P = 100, elite_size = 30, mutant_size = 20.

Facts about the program that shape the model:

- Evaluation sorts with `std::sort`, which is not stable, so individuals of equal
  fitness may end up in any order. The model therefore states every property of
  evaluation for any permutation of the scored population that is non-increasing
  in fitness (`IsEvaluationOf`).
- `evaluate_population` re-decodes every individual, the copied elite included.
  Because decoding is deterministic, an elite's fitness does not change
  (`ElitesSurvive`).
- Crossover rewrites only the key of each gene. Every position keeps the elite
  parent's item index, so the offspring has the elite parent's multiset of
  item indices.

## Model

| member | source | states |
|---|---|---|
| `Chromosomes.Insert` | brkga_knapsack.cpp:51 | Inserting a gene into a sorted chromosome gives a sorted chromosome that is one longer, with exactly one more copy of that gene and of its item index |
| `Chromosomes.SortDesc` | brkga_knapsack.cpp:51 | The sorted chromosome is in descending (key, item) order, has the input's length, and is a permutation of the input genes and of their item indices |
| `Chromosomes.SortedUnique` | brkga_knapsack.cpp:92 | Two descending-sorted gene sequences with the same elements are equal, because the pair order is total and antisymmetric |
| `Chromosomes.SortDescIsUnique` | brkga_knapsack.cpp:51 | A gene sequence is a sorted permutation of the input exactly when it equals the model's sort, so the model's sort agrees with the library sort on every input |
| `Chromosomes.SortDescOfSorted` | brkga_knapsack.cpp:104 | Re-sorting an already sorted chromosome leaves it unchanged |
| `Chromosomes.PermutationFacts` | brkga_knapsack.cpp:47-50 | A chromosome that holds every index 0..N-1 exactly once has N genes, every index in range, and no index twice |
| `Decoder.Decode` | brkga_knapsack.cpp:57-70 | The selection vector has length N. The running weight never exceeds C, or 0 when C is negative |
| `Decoder.DecodeChromosome` | brkga_knapsack.cpp:57-70 | The imperative loop returns the same value and selection vector as the functional decoder |
| `Decoder.WeightGrows` | brkga_knapsack.cpp:65 | With positive weights, the running weight after a prefix is at most the final weight |
| `Decoder.MarkedOnlyIfNamed` | brkga_knapsack.cpp:62-64 | Only item indices that occur in the chromosome are marked true |
| `Decoder.DecodeAccounting` | brkga_knapsack.cpp:58-69 | When no index repeats, the returned value is the sum of values over the marked items, and the running weight is the sum of their weights |
| `Decoder.DecodeFeasible` | brkga_knapsack.cpp:63-67 | When no index repeats and C >= 0, the marked items weigh at most C in total |
| `Decoder.TakenIffFits` | brkga_knapsack.cpp:63-67 | When no index repeats, the item at position i is marked if and only if its weight fits under C on top of the weight taken before position i |
| `Decoder.MarkStays` | brkga_knapsack.cpp:63-64 | The decoder only ever sets marks: an item marked after some prefix is still marked after every longer prefix |
| `Decoder.DecodeMaximal` | brkga_knapsack.cpp:61-68 | Greedy maximality, with positive weights: every unmarked item of the chromosome would overflow C if added to the final selection |
| `Decoder.NothingFits` | brkga_knapsack.cpp:58-69 | If every item is heavier than C (e.g. C = 0 with positive weights), the selection is all false and the value and weight are 0 |
| `Decoder.WorkedExample` | brkga_knapsack.cpp:57-70 | With C = 10, items (5,10), (4,40), (6,30) and gene order 1, 2, 0, items 1 and 2 are taken, item 0 is skipped, and the value is 70 |
| `Population.RandomChromosome` | brkga_knapsack.cpp:44-51 | A fresh chromosome holds every item index exactly once and is sorted. Each gene's key is its own item's draw times that item's density |
| `Population.GeneratePopulation` | brkga_knapsack.cpp:39-54 | There is one individual per row of draws (P rows give P individuals). Each has fitness 0 and a sorted chromosome over all N items built from its row |
| `Population.InsertByFitness` | brkga_knapsack.cpp:78-80 | Inserting into a fitness-sorted population keeps it non-increasing in fitness and adds exactly that individual |
| `Population.SortByFitness` | brkga_knapsack.cpp:78-80 | The result is a permutation of the input that is non-increasing in fitness |
| `Population.EvaluatePopulation` | brkga_knapsack.cpp:73-81 | The result is a permutation of the individuals re-scored by the decoder, and it is non-increasing in fitness |
| `Population.EvaluationFacts` | brkga_knapsack.cpp:73-81 | Any such evaluation keeps the population size. Each entry is some input chromosome with the decoder's value as fitness, and every input chromosome is present with that fitness |
| `Population.EvaluationKeepsWellFormed` | brkga_knapsack.cpp:73-81 | Evaluation keeps every chromosome a sorted permutation of the item indices |
| `Evolution.Sizing` | brkga_knapsack.cpp:109-110 | elite_size and mutant_size are the truncations of P * pe and P * pm: each is at most its product and greater than the product minus one |
| `Evolution.SourceParamsValid` | brkga_knapsack.cpp:23-25 | With P = 100, pe = 0.3 and pm = 0.2 the sizing is 30 elite, 20 mutants and 50 crossover offspring, which meets 0 < elite_size < P and elite_size + mutant_size <= P |
| `Evolution.Recombine` | brkga_knapsack.cpp:85-91 | The unsorted offspring keeps the elite parent's item index at every position and the elite key before the cut. At or past the cut, each key is the elite or the other parent's key at that position, chosen by whether the draw is below rhoe |
| `Evolution.Crossover` | brkga_knapsack.cpp:84-94 | The offspring has the elite parent's length and multiset of item indices and is sorted. Every gene keeps the item of some elite position i, and its key is the elite key there or, only when i >= cut, the other parent's key there |
| `Evolution.Reroll` | brkga_knapsack.cpp:98-103 | Before the sort, each gene keeps its item. A gene whose roll is at least 0.05 is unchanged; any other gets its new draw times its own item's density as key |
| `Evolution.Mutate` | brkga_knapsack.cpp:97-105 | Mutation keeps the length and the multiset of item indices and leaves the chromosome sorted. Every key is an old key of the same item, or a draw times that item's density. If no roll is below 0.05, a sorted chromosome comes back unchanged |
| `Evolution.Breed` | brkga_knapsack.cpp:134-139 | An offspring bred from an elite and a non-elite parent is unevaluated (fitness 0) and its chromosome is a sorted permutation of the item indices |
| `Evolution.NextPopulation` | brkga_knapsack.cpp:113-140 | The assembled population has exactly P individuals. Its first elite_size entries are the old ones, copied unchanged. All later entries have fitness 0 and every chromosome is a sorted permutation |
| `Evolution.Evolve` | brkga_knapsack.cpp:108-144 | A generation step returns exactly P individuals. Their chromosomes are sorted permutations, each fitness equals the decoded value, and they are ranked best first |
| `Evolution.ElitesSurvive` | brkga_knapsack.cpp:117-143 | If the old population was evaluated, each elite individual (chromosome and fitness) appears in every evaluation of a population that starts with a copy of the elite |
| `Evolution.BestNeverDecreases` | brkga_knapsack.cpp:108-144 | The best fitness after a generation is at least the best fitness before it, however the unstable sort orders ties |
| `Evolution.Generations` | brkga_knapsack.cpp:190-192 | After any number of generations the population still has P individuals and is evaluated and well formed. Its best fitness is at least the starting best fitness |
| `Evolution.Solve` | brkga_knapsack.cpp:187-196 | The reported best individual is a sorted permutation, and its fitness is its decoded value. It is at least as good as every individual of the initial random population |

## Left out

- `read_input` (lines 147-167) is file I/O and stream parsing. Items are given
  directly. Density is an abstract real, so the floating-point value/weight
  ratio and its undefined zero-weight case are not modelled.
- `print_population`, argument handling in `main`, and the `chrono` timing are
  console output and wall-clock measurement.
- The random generator (`random_device`, `mt19937` and the distributions) is
  replaced by explicit draws. Statistical claims are not stated: a key is kept
  with probability rhoe, and a gene mutates with probability 0.05. Only the
  per-draw case split is stated.
- `Evolution.Mutate`: the program draws a new key only when a roll is below
  0.05. The model takes one new-key draw per position and uses it only in that
  case, so the alignment of the random stream is not modelled.
- Floating-point arithmetic is not modelled. Keys are reals. `Evolution.Sizing`
  truncates the exact real products P * pe and P * pm, not their rounded
  double values.
- `total_weight` and `total_value` are unbounded integers, so 32-bit `int`
  overflow is not modelled.
- `Evolution.Generations` runs once per element of its draws argument. The
  fixed count G = 200 is not built in.
- `Decoder.DecodeAccounting`, `Decoder.DecodeFeasible` and `Decoder.TakenIffFits`
  assume that no item index repeats. With a repeated index, the value would be
  counted twice, and an item marked at an earlier occurrence would stay marked
  at a later one whether or not it fits there. Every chromosome the program
  builds is a permutation (`PermutationFacts`).
- `Decoder.DecodeMaximal` and `Decoder.WeightGrows` assume positive weights, so
  the running weight never falls. The program does not check weights when it
  reads the instance.
- `Population.EvaluatePopulation` computes one particular ordering of ties (an
  insertion sort). `std::sort` may order ties differently. Every property is
  therefore stated through `IsEvaluationOf`, which admits any ordering of ties.
- `Evolution.Crossover`: the cut distribution `[1, N-1]` is empty when N < 2. The
  program's behaviour is then undefined, and the model requires a cut in range.
