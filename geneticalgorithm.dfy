/** The generational genetic algorithm object. Each method runs the loops of the operator it
    models and is proved against the matching function of module Knapsack; every random draw
    is a parameter. */
module Genetic {
  import opened Knapsack

  class GeneticAlgorithm {
    const populationSize: nat
    const chromosomeLength: nat
    const knapsackCapacity: int
    const tournamentSize: nat
    const dimensions: nat
    /** The flat item catalogue, row-major over the grid given at construction. */
    var items: seq<Item>
    var population: seq<Chromosome>
    var bestSolution: Option<Chromosome>
    /** None stands for the initial minus infinity. */
    var bestFitness: Option<int>

    ghost predicate Valid()
      reads this
    {
      chromosomeLength <= |items| &&
      (|population| == populationSize || |population| == populationSize + populationSize % 2) &&
      WellFormedPopulation(population, chromosomeLength) &&
      BestConsistent(items, knapsackCapacity, chromosomeLength, (bestSolution, bestFitness))
    }

    /** Builds the initial population from the given gene bits, flattens the item grid and
        starts with no best solution. */
    constructor (populationSize: nat, chromosomeLength: nat, grid: seq<seq<Item>>,
                 knapsackCapacity: int, tournamentSize: nat, dimensions: nat,
                 initialGenes: seq<seq<bool>>)
      requires GridCovers(grid, dimensions)
      requires chromosomeLength <= dimensions * dimensions
      requires |initialGenes| == populationSize
      requires forall k :: 0 <= k < |initialGenes| ==> |initialGenes[k]| == chromosomeLength
      ensures Valid()
      ensures this.populationSize == populationSize && this.chromosomeLength == chromosomeLength
      ensures this.knapsackCapacity == knapsackCapacity && this.tournamentSize == tournamentSize
      ensures this.dimensions == dimensions
      ensures |population| == populationSize
      ensures forall k, i :: 0 <= k < |population| && 0 <= i < chromosomeLength ==>
                (population[k][i] == 1 <==> initialGenes[k][i])
      ensures items == Flatten(grid, dimensions, dimensions)
      ensures bestSolution == None && bestFitness == None
    {
      this.populationSize := populationSize;
      this.chromosomeLength := chromosomeLength;
      this.knapsackCapacity := knapsackCapacity;
      this.tournamentSize := tournamentSize;
      this.dimensions := dimensions;
      new;
      population := InitializePopulation(initialGenes);
      items := ConvertItems(grid);
      FlattenRowMajor(grid, dimensions, dimensions);
      bestSolution := None;
      bestFitness := None;
    }

    /** Row-major flattening of the dimensions x dimensions item grid. */
    method ConvertItems(grid: seq<seq<Item>>) returns (flat: seq<Item>)
      requires GridCovers(grid, dimensions)
      ensures flat == Flatten(grid, dimensions, dimensions)
      ensures |flat| == dimensions * dimensions
      ensures forall i, j :: 0 <= i < dimensions && 0 <= j < dimensions ==>
                RowMajor(i, j, dimensions) < |flat| && flat[RowMajor(i, j, dimensions)] == grid[i][j]
    {
      var d := dimensions;
      flat := [];
      for i := 0 to d
        invariant flat == Flatten(grid, d, i)
      {
        ghost var before := flat;
        for j := 0 to d
          invariant flat == before + grid[i][..j]
        {
          assert grid[i][..j + 1] == grid[i][..j] + [grid[i][j]];
          flat := flat + [grid[i][j]];
        }
      }
      FlattenRowMajor(grid, d, d);
    }

    /** One chromosome per row of draws, gene 1 exactly where the draw is true. */
    method InitializePopulation(genes: seq<seq<bool>>) returns (pop: seq<Chromosome>)
      requires |genes| == populationSize
      requires forall k :: 0 <= k < |genes| ==> |genes[k]| == chromosomeLength
      ensures |pop| == populationSize
      ensures WellFormedPopulation(pop, chromosomeLength)
      ensures forall k, i :: 0 <= k < |pop| && 0 <= i < chromosomeLength ==> (pop[k][i] == 1 <==> genes[k][i])
    {
      pop := [];
      for k := 0 to populationSize
        invariant |pop| == k
        invariant WellFormedPopulation(pop, chromosomeLength)
        invariant forall m, i :: 0 <= m < k && 0 <= i < chromosomeLength ==> (pop[m][i] == 1 <==> genes[m][i])
      {
        var chromosome := seq(chromosomeLength, i requires 0 <= i < chromosomeLength => if genes[k][i] then 1 else 0);
        pop := pop + [chromosome];
      }
    }

    /** Adds up weight and value over the 1-genes; over capacity scores 0. */
    method Fitness(chromosome: Chromosome) returns (f: int)
      requires chromosomeLength <= |items| && chromosomeLength <= |chromosome|
      ensures Weight(items, chromosome, chromosomeLength) > knapsackCapacity ==> f == 0
      ensures Weight(items, chromosome, chromosomeLength) <= knapsackCapacity ==>
                f == Value(items, chromosome, chromosomeLength)
    {
      var weight, value := 0, 0;
      for i := 0 to chromosomeLength
        invariant weight == Weight(items, chromosome, i)
        invariant value == Value(items, chromosome, i)
      {
        if chromosome[i] == 1 {
          weight := weight + items[i].weight;
          value := value + items[i].value;
        }
      }
      if weight > knapsackCapacity {
        f := 0;
      } else {
        f := value;
      }
    }

    /** `max` over the contestants keyed by fitness: the first contestant of greatest fitness. */
    method TournamentWinner(contestants: seq<Chromosome>) returns (winner: Chromosome)
      requires |contestants| > 0
      requires chromosomeLength <= |items|
      requires forall k :: 0 <= k < |contestants| ==> chromosomeLength <= |contestants[k]|
      ensures winner == contestants[FirstBest(Scores(items, knapsackCapacity, chromosomeLength, contestants))]
    {
      ghost var scores := Scores(items, knapsackCapacity, chromosomeLength, contestants);
      var best := 0;
      var bestScore := Fitness(contestants[0]);
      for i := 1 to |contestants|
        invariant best == FirstBest(scores[..i])
        invariant bestScore == scores[best]
      {
        var f := Fitness(contestants[i]);
        assert scores[..i + 1][..i] == scores[..i];
        if f > bestScore {
          best, bestScore := i, f;
        }
      }
      assert scores[..|contestants|] == scores;
      winner := contestants[best];
    }

    /** The mating pool: one tournament winner per tournament draw, population-size many. */
    method Selection(tournaments: seq<seq<nat>>) returns (selected: seq<Chromosome>)
      requires Valid()
      requires |tournaments| == populationSize
      requires TournamentsDrawn(tournaments, tournamentSize, |population|)
      ensures |selected| == populationSize
      ensures selected == Select(items, knapsackCapacity, chromosomeLength, population, tournaments)
      ensures forall t :: 0 <= t < |selected| ==>
                IsTournamentWinner(items, knapsackCapacity, chromosomeLength, population, tournaments[t], selected[t])
    {
      ghost var spec := Select(items, knapsackCapacity, chromosomeLength, population, tournaments);
      selected := [];
      while |selected| < populationSize
        invariant |selected| <= populationSize
        invariant selected == spec[..|selected|]
      {
        var contestants := Contestants(population, tournaments[|selected|]);
        var winner := TournamentWinner(contestants);
        selected := selected + [winner];
      }
      assert spec[..|selected|] == spec;
      SelectWinners(items, knapsackCapacity, chromosomeLength, population, tournaments);
    }

    /** Uniform crossover: at each gene the children keep the parents' order when the draw
        says so, and swap it otherwise. */
    method Crossover(parent1: Chromosome, parent2: Chromosome, keep: seq<bool>) returns (child1: seq<int>, child2: seq<int>)
      requires chromosomeLength <= |parent1| && chromosomeLength <= |parent2|
      requires |keep| == chromosomeLength
      ensures |child1| == chromosomeLength && |child2| == chromosomeLength
      ensures forall i :: 0 <= i < chromosomeLength ==>
                (child1[i], child2[i]) == if keep[i] then (parent1[i], parent2[i]) else (parent2[i], parent1[i])
      ensures (child1, child2) == UniformCross(parent1, parent2, keep, chromosomeLength)
    {
      child1, child2 := [], [];
      for i := 0 to chromosomeLength
        invariant |child1| == i && |child2| == i
        invariant forall m :: 0 <= m < i ==>
                    (child1[m], child2[m]) == if keep[m] then (parent1[m], parent2[m]) else (parent2[m], parent1[m])
      {
        if keep[i] {
          child1 := child1 + [parent1[i]];
          child2 := child2 + [parent2[i]];
        } else {
          child1 := child1 + [parent2[i]];
          child2 := child2 + [parent1[i]];
        }
      }
      var (u1, u2) := UniformCross(parent1, parent2, keep, chromosomeLength);
      assert child1 == u1 && child2 == u2;
    }

    /** Bit-flip mutation in place: gene i becomes 1 - gene when its draw says so. */
    method Mutation(chromosome: array<int>, flip: seq<bool>)
      requires chromosomeLength <= chromosome.Length
      requires |flip| == chromosomeLength
      modifies chromosome
      ensures chromosome[..] == Mutated(old(chromosome[..]), flip, chromosomeLength)
    {
      for i := 0 to chromosomeLength
        invariant forall m :: 0 <= m < i ==>
                    chromosome[m] == if flip[m] then 1 - old(chromosome[m]) else old(chromosome[m])
        invariant forall m :: i <= m < chromosome.Length ==> chromosome[m] == old(chromosome[m])
      {
        if flip[i] {
          chromosome[i] := 1 - chromosome[i];
        }
      }
    }

    /** The two children of one parent pair: both parents drawn from the mating pool, crossed
        when the gate draw holds and copied otherwise, then each mutated by its own draws. */
    method Reproduce(pool: seq<Chromosome>, d: PairDraws) returns (child1: Chromosome, child2: Chromosome)
      requires PairFits(d, |pool|, chromosomeLength)
      requires forall k :: 0 <= k < |pool| ==> chromosomeLength <= |pool[k]|
      ensures (child1, child2) == Offspring(pool, d, chromosomeLength)
    {
      var parent1, parent2 := pool[d.first], pool[d.second];
      var crossed1, crossed2;
      if d.cross {
        crossed1, crossed2 := Crossover(parent1, parent2, d.keep);
      } else {
        crossed1, crossed2 := parent1, parent2;
      }
      // fresh lists, so that mutating them leaves the mating pool alone
      var a1 := new int[|crossed1|](i requires 0 <= i < |crossed1| => crossed1[i]);
      var a2 := new int[|crossed2|](i requires 0 <= i < |crossed2| => crossed2[i]);
      assert a1[..] == crossed1 && a2[..] == crossed2;
      Mutation(a1, d.flip1);
      Mutation(a2, d.flip2);
      child1, child2 := a1[..], a2[..];
    }

    /** The new population: children two at a time, while it is smaller than the population
        size; an odd population size therefore yields one chromosome more. */
    method Generate(pool: seq<Chromosome>, pairs: seq<PairDraws>) returns (next: seq<Chromosome>)
      requires |pairs| == (populationSize + 1) / 2
      requires forall t :: 0 <= t < |pairs| ==> PairFits(pairs[t], |pool|, chromosomeLength)
      requires forall k :: 0 <= k < |pool| ==> chromosomeLength <= |pool[k]|
      ensures |next| == populationSize + populationSize % 2
      ensures next == Breed(pool, pairs, chromosomeLength)
    {
      next := [];
      var t := 0;
      while |next| < populationSize
        invariant |next| == 2 * t && t <= |pairs|
        invariant next == Breed(pool, pairs[..t], chromosomeLength)
      {
        var child1, child2 := Reproduce(pool, pairs[t]);
        assert pairs[..t + 1][..t] == pairs[..t];
        next := next + [child1, child2];
        t := t + 1;
      }
      assert t == |pairs|;
      assert pairs[..t] == pairs;
    }

    /** Scans the chromosomes in order and replaces the best solution by any that scores
        strictly higher than the best fitness so far. */
    method KeepBest(next: seq<Chromosome>)
      requires chromosomeLength <= |items|
      requires forall k :: 0 <= k < |next| ==> chromosomeLength <= |next[k]|
      modifies this`bestSolution, this`bestFitness
      ensures (bestSolution, bestFitness)
           == Tracked(items, knapsackCapacity, chromosomeLength, (old(bestSolution), old(bestFitness)), next)
    {
      ghost var start := (bestSolution, bestFitness);
      for k := 0 to |next|
        invariant (bestSolution, bestFitness) == Tracked(items, knapsackCapacity, chromosomeLength, start, next[..k])
      {
        var f := Fitness(next[k]);
        assert next[..k + 1][..k] == next[..k];
        if bestFitness.None? || f > bestFitness.value {
          bestSolution := Some(next[k]);
          bestFitness := Some(f);
        }
      }
      assert next[..|next|] == next;
    }

    /** One generation: selection, two mutated children per parent pair until the new
        population reaches the population size, best-solution tracking with strict >, and
        installation of the new population. */
    method Evolve(draws: GenerationDraws)
      requires Valid()
      requires |draws.tournaments| == populationSize
      requires TournamentsDrawn(draws.tournaments, tournamentSize, |population|)
      requires |draws.pairs| == (populationSize + 1) / 2
      requires forall t :: 0 <= t < |draws.pairs| ==> PairFits(draws.pairs[t], populationSize, chromosomeLength)
      modifies this`population, this`bestSolution, this`bestFitness
      ensures Valid()
      ensures |population| == populationSize + populationSize % 2
      ensures population == Breed(Select(items, knapsackCapacity, chromosomeLength, old(population), draws.tournaments),
                                  draws.pairs, chromosomeLength)
      ensures (bestSolution, bestFitness)
           == Tracked(items, knapsackCapacity, chromosomeLength, (old(bestSolution), old(bestFitness)), population)
      ensures old(bestFitness).Some? ==> bestFitness.Some? && bestFitness.value >= old(bestFitness).value
      ensures forall k :: 0 <= k < |population| ==>
                bestFitness.Some? && Score(items, knapsackCapacity, population[k], chromosomeLength) <= bestFitness.value
    {
      var L := chromosomeLength;
      var pool := Selection(draws.tournaments);
      SelectWellFormed(items, knapsackCapacity, L, population, draws.tournaments);
      var next := Generate(pool, draws.pairs);
      BreedShape(pool, draws.pairs, L);

      ghost var start := (bestSolution, bestFitness);
      TrackedConsistent(items, knapsackCapacity, L, start, next);
      KeepBest(next);
      population := next;
      TrackedDominates(items, knapsackCapacity, L, start, next);
      if start.1.Some? {
        TrackedMonotone(items, knapsackCapacity, L, start, next);
      }
    }

    /** The positions of the 1-genes of the best solution, in increasing order; None while no
        best solution exists yet. */
    method Decode() returns (picks: Option<seq<nat>>)
      ensures bestSolution.None? <==> picks.None?
      ensures picks.Some? ==> picks.value == Picks(bestSolution.value)
      ensures picks.Some? ==> ListsOnes(bestSolution.value, picks.value)
    {
      if bestSolution.None? {
        return None;
      }
      var solution := bestSolution.value;
      var p: seq<nat> := [];
      for i := 0 to |solution|
        invariant p == Picks(solution[..i])
      {
        assert solution[..i + 1][..i] == solution[..i];
        if solution[i] == 1 {
          p := p + [i];
        }
      }
      assert solution[..|solution|] == solution;
      PicksLists(solution);
      picks := Some(p);
    }
  }
}
