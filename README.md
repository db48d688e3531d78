# Genetic algorithm for the 0/1 knapsack problem, modelled in Dafny

This project models `GeneticAlgorithm` (`geneticalgorithm.py`), a generational genetic
algorithm for the 0/1 knapsack problem. A chromosome is a list of integer genes, one per
item, and gene 1 means the item is packed. The object holds a population, the flattened item
catalogue, and the best solution found so far with its fitness. One `evolve` call runs one
generation:

- tournament selection builds a mating pool;
- randomly drawn parent pairs are crossed (behind a random gate) or copied;
- both children are bit-flip mutated;
- the best solution is updated with a strict `>`;
- the new population is installed.

Every random draw is an explicit input:
- the initial gene bits (`random.randint`);
- per tournament, the distinct contestant positions (`random.sample`);
- per parent pair, a `PairDraws` value holding:
  - the two pool positions (`random.choices`);
  - the crossover gate `cross` (the `random.random() < crossover_rate` test of line 89);
  - one `keep` flag per gene (the same test at line 68);
  - one flip flag per gene for each child (`random.random() < mutation_rate`, line 79).

`crossover_rate` is used at two sites, and the model keeps them apart as two separate
inputs, `cross` and `keep`.

Files:

- `knapsack.dfy`, module `Knapsack`: the meaning of each operator as a pure function over
  values, and the lemmas about those functions. These are `Weight`, `Value`, `Score` (the
  fitness of a chromosome), `Scores`, `Flatten`, `FirstBest`, `Select`, `UniformCross`, `Mutated`, `Offspring`, `Breed`,
  `Tracked` and `Picks`.
- `geneticalgorithm.dfy`, module `Genetic`: the class `GeneticAlgorithm`. Its fields are the
  configuration (as `const`s), `items`, `population`, `bestSolution` and `bestFitness`. Each
  method runs the loops of the operator it models and is proved against the matching
  `Knapsack` function. The invariant `Valid()` says:
  - every chromosome has `chromosomeLength` genes, each 0 or 1;
  - the population has N or N + N % 2 members;
  - a best solution is held exactly when a best fitness is, and that fitness is the
    solution's own fitness.

Two behaviours of the code that a reader might not expect are modelled as written:

- With an odd population size N, `evolve` installs N + 1 chromosomes, because children are
  appended two at a time while the population is smaller than N (`Generate`, `Evolve`).
- Fitness can be negative: a feasible chromosome that packs an item of negative value
  scores below zero, so `FitnessNonNegative` assumes every item value is non-negative.

## Model

| member | source | states |
|---|---|---|
| `Genetic.GeneticAlgorithm.constructor` | geneticalgorithm.py:5-18 | the initial population has population-size chromosomes whose genes follow the initial bits; items are the row-major flattening of the grid; there is no best solution or fitness yet; `Valid()` holds |
| `Genetic.GeneticAlgorithm.ConvertItems` | geneticalgorithm.py:21-26 | the flat list has dimensions² entries and holds grid entry (i, j) at position i*dimensions + j |
| `Knapsack.FlattenRowMajor` | geneticalgorithm.py:21-26 | the row-major flattening of r rows has r*d entries, with entry (i, j) at position i*d + j |
| `Genetic.GeneticAlgorithm.InitializePopulation` | geneticalgorithm.py:29-34 | population-size chromosomes, each with chromosome-length genes that are all 0/1, and gene i of chromosome k is 1 exactly when its draw is true |
| `Genetic.GeneticAlgorithm.Fitness` | geneticalgorithm.py:37-47 | the result is 0 when the packed weight is strictly over capacity, and the packed value otherwise (weight equal to capacity keeps the value) |
| `Knapsack.FitnessNonNegative` | geneticalgorithm.py:37-47 | with non-negative item values every fitness is at least 0 |
| `Knapsack.FitnessOfPicks` | geneticalgorithm.py:37-47 | fitness equals the capacity-checked value of exactly the items the decoder lists: weight and value summed over the decoded positions |
| `Knapsack.FirstBestIsFirstMax` | geneticalgorithm.py:58 | the position `max` with a key picks scores at least as high as every other position and strictly higher than every earlier one |
| `Genetic.GeneticAlgorithm.TournamentWinner` | geneticalgorithm.py:58 | the winner is the contestant at the first position of greatest fitness |
| `Genetic.GeneticAlgorithm.Selection` | geneticalgorithm.py:54-60 | exactly population-size winners, one per tournament; each is one of its tournament's contestants, scores at least as high as every contestant, and strictly higher than every contestant drawn before it |
| `Knapsack.SelectWinners` | geneticalgorithm.py:54-60 | each selected chromosome is its tournament's first contestant of greatest fitness |
| `Knapsack.SelectWellFormed` | geneticalgorithm.py:54-60 | selecting from a well-formed 0/1 population gives well-formed 0/1 chromosomes |
| `Genetic.GeneticAlgorithm.Crossover` | geneticalgorithm.py:64-74 | both children have chromosome-length genes; at every position (child1[i], child2[i]) is (parent1[i], parent2[i]) when that position's draw says keep, and (parent2[i], parent1[i]) otherwise |
| `Knapsack.CrossoverAllKeep` | geneticalgorithm.py:64-74 | when every draw says keep, the children equal the parents |
| `Knapsack.CrossoverAllSwap` | geneticalgorithm.py:64-74 | when every draw says swap, the children are the parents swapped |
| `Knapsack.CrossoverUndo` | geneticalgorithm.py:64-74 | crossing the children again with the same draws gives back the parents' first n genes (all of them for the pool's chromosome-length chromosomes) |
| `Knapsack.CrossoverConservesGenes` | geneticalgorithm.py:64-74 | the children's genes together form the same multiset as the parents' first n genes together (all of them for the pool's chromosome-length chromosomes) |
| `Knapsack.CrossoverKeepsBinary` | geneticalgorithm.py:64-74 | children of 0/1 parents are 0/1 |
| `Genetic.GeneticAlgorithm.Mutation` | geneticalgorithm.py:77-81 | in place: the array keeps its length, and each of the first chromosome-length genes becomes 1 - old when its draw says flip and stays otherwise |
| `Knapsack.MutationNoFlip` | geneticalgorithm.py:77-81 | with no flip draws the chromosome is unchanged |
| `Knapsack.MutationAllFlip` | geneticalgorithm.py:77-81 | with a flip draw at every gene the chromosome becomes its bitwise complement |
| `Knapsack.MutationKeepsBinary` | geneticalgorithm.py:77-81 | 0/1 genes stay 0/1 |
| `Knapsack.MutationUndo` | geneticalgorithm.py:77-81 | mutating twice with the same draws restores the chromosome |
| `Genetic.GeneticAlgorithm.Reproduce` | geneticalgorithm.py:88-94 | the two children of one pair equal `Offspring` of the pool and the pair's draws: the two drawn parents, crossed by the per-gene draws when the gate draw holds and copied otherwise, then each mutated by its own flip draws |
| `Genetic.GeneticAlgorithm.Generate` | geneticalgorithm.py:86-95 | the new population is the children of the pairs two at a time, in order, and has N + N % 2 members |
| `Knapsack.BreedShape` | geneticalgorithm.py:87-95 | each pair adds exactly two children, and from a well-formed 0/1 pool every child has chromosome-length 0/1 genes |
| `Genetic.GeneticAlgorithm.KeepBest` | geneticalgorithm.py:96-101 | the best pair after scanning the new population in order, replacing it only on strictly greater fitness |
| `Knapsack.TrackedMonotone` | geneticalgorithm.py:96-101 | once a best fitness exists it never decreases |
| `Knapsack.TrackedDominates` | geneticalgorithm.py:96-101 | after scanning a non-empty population there is a best fitness, and it is at least the fitness of every scanned chromosome |
| `Knapsack.TrackedConsistent` | geneticalgorithm.py:96-101 | the best solution is present exactly when the best fitness is, and then the fitness equals the solution's fitness |
| `Knapsack.TrackedFirstBest` | geneticalgorithm.py:96-101 | either the best pair is unchanged, or it holds the first chromosome of greatest fitness, and that chromosome beat the earlier best: a later chromosome of equal fitness never replaces an earlier one |
| `Genetic.GeneticAlgorithm.Evolve` | geneticalgorithm.py:84-102 | `Valid()` is kept; the installed population is the bred children of the selected pool and has N + N % 2 members; the best pair is the tracked scan over it; the best fitness never decreases and is at least the fitness of every new chromosome |
| `Genetic.GeneticAlgorithm.Decode` | geneticalgorithm.py:105-110 | None while there is no best solution; otherwise exactly the positions i with best_solution[i] == 1, in strictly increasing order, each smaller than the solution's length |
| `Knapsack.PicksLists` | geneticalgorithm.py:105-110 | the decoded positions are strictly increasing, each holds gene 1, and every gene-1 position is listed |

## Left out

- The pseudo-random source (`random.randint`, `random.sample`, `random.choices`,
  `random.random`): every draw is an input. The draws' distributions are not modelled, only
  their shape: contestant positions are distinct, and every draw sequence has the expected
  length.
- `crossover_rate` and `mutation_rate`: these are floating-point numbers, and only their
  comparison with a draw matters. The boolean draws `cross`, `keep`, `flip1` and `flip2`
  stand for the outcomes of those comparisons.
- `float('-inf')` as the initial best fitness is the value `None`.
- Item weights, values and `knapsack_capacity` are integers. The source accepts any Python
  number, and floating-point sums and their rounding before the `weight > capacity` cut-off
  are not modelled.
- Genetic.GeneticAlgorithm.Decode: when there is no best solution yet, the source raises a
  `TypeError` while iterating `None`. The model returns `None` instead of modelling the
  exception.
- `get_items`, a plain accessor of `items`.
- Genetic.GeneticAlgorithm.Mutation: the source also returns the list it mutated. That is
  the same object the caller passed in, so the model returns nothing.
- Genetic.GeneticAlgorithm.constructor: `self.items` first holds the grid and is then
  rebound to the flat list. The model takes the grid as a parameter and stores only the
  flat list.
- List identity: `best_solution` is the same list object as a member of the population in
  which it was found.
  The model uses values instead of objects. This loses nothing, because no list that
  reaches the population is mutated again: children are fresh lists, mutated before they
  are installed.
- Configuration validation: the source does none. The model's requirements are
  preconditions instead of error paths:
  - the sizes (`populationSize`, `chromosomeLength`, `tournamentSize`, `dimensions`) are
    natural numbers, while the source also accepts negative ones, for which `range()` is
    simply empty;
  - the grid covers dimensions × dimensions;
  - the chromosome length is at most dimensions²;
  - each tournament is non-empty, holds tournament-size distinct positions of the current
    population, and there is one tournament per pool slot.
- Any outer run loop: the caller drives `Evolve` one generation at a time.
