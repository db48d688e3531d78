/** Specification of the genetic algorithm for the 0/1 knapsack problem: the value-level
    meaning of each operator, with the random draws made explicit, and the properties the
    operators promise. The class in geneticalgorithm.dfy is proved against these functions. */
module Knapsack {

  datatype Option<T> = None | Some(value: T)

  /** One catalogue entry, the pair (weight, value). */
  datatype Item = Item(weight: int, value: int)

  /** A chromosome holds one gene per item; gene 1 means "the item is packed". */
  type Chromosome = seq<int>

  /** The random choices one parent pair consumes in a generation step: the two positions
      drawn from the mating pool, the crossover gate, the per-gene crossover draws
      ("keep the parents' order") and the per-gene mutation draws of each child. */
  datatype PairDraws = PairDraws(first: nat, second: nat, cross: bool, keep: seq<bool>,
                                 flip1: seq<bool>, flip2: seq<bool>)

  /** The random choices of one generation step: one list of contestant positions per
      tournament, and the draws of each parent pair. */
  datatype GenerationDraws = GenerationDraws(tournaments: seq<seq<nat>>, pairs: seq<PairDraws>)

  predicate Binary(c: Chromosome) {
    forall i :: 0 <= i < |c| ==> c[i] == 0 || c[i] == 1
  }

  /** Every chromosome has exactly n genes, each 0 or 1. */
  predicate WellFormedPopulation(pop: seq<Chromosome>, n: nat) {
    forall k :: 0 <= k < |pop| ==> |pop[k]| == n && Binary(pop[k])
  }

  /** A grid that has at least d rows of at least d entries each. */
  predicate GridCovers(grid: seq<seq<Item>>, d: nat) {
    d <= |grid| && forall i :: 0 <= i < d ==> d <= |grid[i]|
  }

  // ---------------------------------------------------------------------------
  // Item flattening

  /** The first d entries of each of the first `rows` rows, row after row. */
  function Flatten(grid: seq<seq<Item>>, d: nat, rows: nat): seq<Item>
    requires rows <= |grid| && forall i :: 0 <= i < rows ==> d <= |grid[i]|
  {
    if rows == 0 then [] else Flatten(grid, d, rows - 1) + grid[rows - 1][..d]
  }

  /** Row-major layout: entry (i, j) of the grid sits at position i * d + j. */
  lemma {:induction false} FlattenRowMajor(grid: seq<seq<Item>>, d: nat, rows: nat)
    requires rows <= |grid| && forall i :: 0 <= i < rows ==> d <= |grid[i]|
    ensures |Flatten(grid, d, rows)| == rows * d
    ensures forall i, j :: 0 <= i < rows && 0 <= j < d ==>
              RowMajor(i, j, d) < rows * d && Flatten(grid, d, rows)[RowMajor(i, j, d)] == grid[i][j]
  {
    if rows > 0 {
      var r := rows - 1;
      FlattenRowMajor(grid, d, r);
      var prefix := Flatten(grid, d, r);
      assert rows * d == r * d + d;
      forall i, j | 0 <= i < rows && 0 <= j < d
        ensures RowMajor(i, j, d) < rows * d && Flatten(grid, d, rows)[RowMajor(i, j, d)] == grid[i][j]
      {
        if i < r {
          assert RowMajor(i, j, d) < r * d;
        } else {
          assert RowMajor(i, j, d) == r * d + j;
        }
      }
    }
  }

  /** Position of grid entry (i, j) in the row-major list. */
  function RowMajor(i: nat, j: nat, d: nat): nat {
    i * d + j
  }

  // ---------------------------------------------------------------------------
  // Fitness

  /** Total weight of the packed items among the first n genes. */
  function Weight(items: seq<Item>, c: Chromosome, n: nat): int
    requires n <= |items| && n <= |c|
  {
    if n == 0 then 0
    else Weight(items, c, n - 1) + (if c[n - 1] == 1 then items[n - 1].weight else 0)
  }

  /** Total value of the packed items among the first n genes. */
  function Value(items: seq<Item>, c: Chromosome, n: nat): int
    requires n <= |items| && n <= |c|
  {
    if n == 0 then 0
    else Value(items, c, n - 1) + (if c[n - 1] == 1 then items[n - 1].value else 0)
  }

  /** The score of a chromosome: 0 when its packed weight is over capacity, its packed value otherwise. */
  function Score(items: seq<Item>, capacity: int, c: Chromosome, n: nat): int
    requires n <= |items| && n <= |c|
  {
    if Weight(items, c, n) > capacity then 0 else Value(items, c, n)
  }

  lemma {:induction false} ValueNonNegative(items: seq<Item>, c: Chromosome, n: nat)
    requires n <= |items| && n <= |c|
    requires forall i :: 0 <= i < n ==> items[i].value >= 0
    ensures Value(items, c, n) >= 0
  {
    if n > 0 {
      ValueNonNegative(items, c, n - 1);
    }
  }

  /** With non-negative item values no chromosome scores below zero. */
  lemma FitnessNonNegative(items: seq<Item>, capacity: int, c: Chromosome, n: nat)
    requires n <= |items| && n <= |c|
    requires forall i :: 0 <= i < n ==> items[i].value >= 0
    ensures Score(items, capacity, c, n) >= 0
  {
    ValueNonNegative(items, c, n);
  }

  /** Every listed position is a position of a catalogue of the given size. */
  predicate Within(picks: seq<nat>, size: nat) {
    forall k :: 0 <= k < |picks| ==> picks[k] < size
  }

  /** Sums of weights and values over a list of item positions. */
  function SumWeight(items: seq<Item>, picks: seq<nat>): int
    requires Within(picks, |items|)
  {
    if picks == [] then 0
    else SumWeight(items, picks[..|picks| - 1]) + items[picks[|picks| - 1]].weight
  }

  function SumValue(items: seq<Item>, picks: seq<nat>): int
    requires Within(picks, |items|)
  {
    if picks == [] then 0
    else SumValue(items, picks[..|picks| - 1]) + items[picks[|picks| - 1]].value
  }

  /** Decoding one gene more appends its position exactly when the gene is 1. */
  lemma PicksStep(c: Chromosome, n: nat)
    requires 0 < n <= |c|
    ensures Picks(c[..n]) == Picks(c[..n - 1]) + (if c[n - 1] == 1 then [n - 1] else [])
    ensures Within(Picks(c[..n]), n)
  {
    assert c[..n][..n - 1] == c[..n - 1];
    PicksLists(c[..n]);
  }

  lemma {:induction false} WeightOverPicks(items: seq<Item>, c: Chromosome, n: nat)
    requires n <= |items| && n <= |c|
    ensures Within(Picks(c[..n]), |items|)
    ensures Weight(items, c, n) == SumWeight(items, Picks(c[..n]))
  {
    if n > 0 {
      WeightOverPicks(items, c, n - 1);
      PicksStep(c, n);
      var p := Picks(c[..n - 1]);
      if c[n - 1] == 1 {
        var q := p + [n - 1];
        assert q[..|q| - 1] == p && q[|q| - 1] == n - 1;
        assert Within(q, |items|);
      } else {
        assert p + [] == p;
      }
    }
  }

  lemma {:induction false} ValueOverPicks(items: seq<Item>, c: Chromosome, n: nat)
    requires n <= |items| && n <= |c|
    ensures Within(Picks(c[..n]), |items|)
    ensures Value(items, c, n) == SumValue(items, Picks(c[..n]))
  {
    if n > 0 {
      ValueOverPicks(items, c, n - 1);
      PicksStep(c, n);
      var p := Picks(c[..n - 1]);
      if c[n - 1] == 1 {
        var q := p + [n - 1];
        assert q[..|q| - 1] == p && q[|q| - 1] == n - 1;
        assert Within(q, |items|);
      } else {
        assert p + [] == p;
      }
    }
  }

  /** Fitness is the capacity-checked value of exactly the items the decoder lists. */
  lemma FitnessOfPicks(items: seq<Item>, capacity: int, c: Chromosome)
    requires |c| <= |items|
    ensures Within(Picks(c), |items|)
    ensures Score(items, capacity, c, |c|)
         == if SumWeight(items, Picks(c)) > capacity then 0 else SumValue(items, Picks(c))
  {
    assert c[..|c|] == c;
    WeightOverPicks(items, c, |c|);
    ValueOverPicks(items, c, |c|);
  }

  // ---------------------------------------------------------------------------
  // Tournament selection

  /** The position `max` with a key returns: the first position of greatest score. */
  function FirstBest(scores: seq<int>): (j: nat)
    requires |scores| > 0
    ensures j < |scores|
  {
    if |scores| == 1 then 0
    else
      var j := FirstBest(scores[..|scores| - 1]);
      if scores[|scores| - 1] > scores[j] then |scores| - 1 else j
  }

  lemma {:induction false} FirstBestIsFirstMax(scores: seq<int>)
    requires |scores| > 0
    ensures forall k :: 0 <= k < |scores| ==> scores[k] <= scores[FirstBest(scores)]
    ensures forall k :: 0 <= k < FirstBest(scores) ==> scores[k] < scores[FirstBest(scores)]
  {
    if |scores| > 1 {
      var init := scores[..|scores| - 1];
      FirstBestIsFirstMax(init);
      assert forall k :: 0 <= k < |init| ==> init[k] == scores[k];
    }
  }

  function Scores(items: seq<Item>, capacity: int, n: nat, cs: seq<Chromosome>): (r: seq<int>)
    requires n <= |items| && forall k :: 0 <= k < |cs| ==> n <= |cs[k]|
  {
    seq(|cs|, k requires 0 <= k < |cs| => Score(items, capacity, cs[k], n))
  }

  /** The chromosomes at the drawn population positions, in draw order. */
  function Contestants(pop: seq<Chromosome>, tour: seq<nat>): seq<Chromosome>
    requires forall j :: 0 <= j < |tour| ==> tour[j] < |pop|
  {
    seq(|tour|, j requires 0 <= j < |tour| => pop[tour[j]])
  }

  /** Every tournament draws at least one contestant, each a position of a population of
      the given size. */
  predicate Drawable(tours: seq<seq<nat>>, popSize: nat) {
    forall t :: 0 <= t < |tours| ==> 0 < |tours[t]| && forall j :: 0 <= j < |tours[t]| ==> tours[t][j] < popSize
  }

  /** The draws of random.sample: each tournament holds k distinct positions of the population. */
  predicate TournamentsDrawn(tours: seq<seq<nat>>, k: nat, popSize: nat) {
    Drawable(tours, popSize) &&
    forall t :: 0 <= t < |tours| ==>
      |tours[t]| == k && forall i, j :: 0 <= i < j < |tours[t]| ==> tours[t][i] != tours[t][j]
  }

  /** The winner of each tournament, in tournament order. */
  function Select(items: seq<Item>, capacity: int, n: nat, pop: seq<Chromosome>, tours: seq<seq<nat>>): seq<Chromosome>
    requires n <= |items| && forall k :: 0 <= k < |pop| ==> n <= |pop[k]|
    requires Drawable(tours, |pop|)
  {
    seq(|tours|, t requires 0 <= t < |tours| =>
      var cs := Contestants(pop, tours[t]);
      cs[FirstBest(Scores(items, capacity, n, cs))])
  }

  /** w is a contestant of the tournament, scores at least as well as every contestant and
      strictly better than every contestant drawn before it. */
  ghost predicate IsTournamentWinner(items: seq<Item>, capacity: int, n: nat, pop: seq<Chromosome>,
                                     tour: seq<nat>, w: Chromosome)
    requires n <= |items| && n <= |w| && forall k :: 0 <= k < |pop| ==> n <= |pop[k]|
    requires forall j :: 0 <= j < |tour| ==> tour[j] < |pop|
  {
    exists j :: 0 <= j < |tour| && w == pop[tour[j]] &&
      (forall m :: 0 <= m < |tour| ==> Score(items, capacity, pop[tour[m]], n) <= Score(items, capacity, w, n)) &&
      (forall m :: 0 <= m < j ==> Score(items, capacity, pop[tour[m]], n) < Score(items, capacity, w, n))
  }

  lemma SelectWinners(items: seq<Item>, capacity: int, n: nat, pop: seq<Chromosome>, tours: seq<seq<nat>>)
    requires n <= |items| && forall k :: 0 <= k < |pop| ==> n <= |pop[k]|
    requires Drawable(tours, |pop|)
    ensures |Select(items, capacity, n, pop, tours)| == |tours|
    ensures forall t :: 0 <= t < |tours| ==>
      var w := Select(items, capacity, n, pop, tours)[t];
      n <= |w| && IsTournamentWinner(items, capacity, n, pop, tours[t], w)
  {
    var sel := Select(items, capacity, n, pop, tours);
    forall t | 0 <= t < |tours|
      ensures n <= |sel[t]| && IsTournamentWinner(items, capacity, n, pop, tours[t], sel[t])
    {
      var cs := Contestants(pop, tours[t]);
      var scores := Scores(items, capacity, n, cs);
      FirstBestIsFirstMax(scores);
      var j := FirstBest(scores);
      assert sel[t] == pop[tours[t][j]];
      assert forall m :: 0 <= m < |tours[t]| ==> scores[m] == Score(items, capacity, pop[tours[t][m]], n);
      assert IsTournamentWinner(items, capacity, n, pop, tours[t], sel[t]) by {
        assert 0 <= j < |tours[t]| && sel[t] == pop[tours[t][j]];
      }
    }
  }

  /** With a binary population every selected chromosome is binary and has n genes. */
  lemma SelectWellFormed(items: seq<Item>, capacity: int, n: nat, pop: seq<Chromosome>, tours: seq<seq<nat>>)
    requires n <= |items| && WellFormedPopulation(pop, n)
    requires Drawable(tours, |pop|)
    ensures WellFormedPopulation(Select(items, capacity, n, pop, tours), n)
  {
    SelectWinners(items, capacity, n, pop, tours);
  }

  // ---------------------------------------------------------------------------
  // Uniform crossover

  /** The two children: at gene i they keep the parents' order when keep[i] holds, and
      swap it otherwise. */
  function UniformCross(p1: Chromosome, p2: Chromosome, keep: seq<bool>, n: nat): (seq<int>, seq<int>)
    requires n <= |p1| && n <= |p2| && n <= |keep|
  {
    (seq(n, i requires 0 <= i < n => if keep[i] then p1[i] else p2[i]),
     seq(n, i requires 0 <= i < n => if keep[i] then p2[i] else p1[i]))
  }

  /** When every draw says "keep", the children are the parents. */
  lemma CrossoverAllKeep(p1: Chromosome, p2: Chromosome, keep: seq<bool>, n: nat)
    requires |p1| == n && |p2| == n && n <= |keep|
    requires forall i :: 0 <= i < n ==> keep[i]
    ensures UniformCross(p1, p2, keep, n) == (p1, p2)
  {
    var (c1, c2) := UniformCross(p1, p2, keep, n);
    assert c1 == p1 && c2 == p2;
  }

  /** When every draw says "swap", the children are the parents in reverse order. */
  lemma CrossoverAllSwap(p1: Chromosome, p2: Chromosome, keep: seq<bool>, n: nat)
    requires |p1| == n && |p2| == n && n <= |keep|
    requires forall i :: 0 <= i < n ==> !keep[i]
    ensures UniformCross(p1, p2, keep, n) == (p2, p1)
  {
    var (c1, c2) := UniformCross(p1, p2, keep, n);
    assert c1 == p2 && c2 == p1;
  }

  /** Crossing the children again with the same draws gives back the parents. */
  lemma CrossoverUndo(p1: Chromosome, p2: Chromosome, keep: seq<bool>, n: nat)
    requires n <= |p1| && n <= |p2| && n <= |keep|
    ensures var (c1, c2) := UniformCross(p1, p2, keep, n);
            UniformCross(c1, c2, keep, n) == (p1[..n], p2[..n])
  {
    var (c1, c2) := UniformCross(p1, p2, keep, n);
    var (e1, e2) := UniformCross(c1, c2, keep, n);
    assert e1 == p1[..n] && e2 == p2[..n];
  }

  /** Crossover neither creates nor loses genes: the children together hold the same genes
      as the parents' first n positions together. */
  lemma {:induction false} CrossoverConservesGenes(p1: Chromosome, p2: Chromosome, keep: seq<bool>, n: nat)
    requires n <= |p1| && n <= |p2| && n <= |keep|
    ensures var (c1, c2) := UniformCross(p1, p2, keep, n);
            multiset(c1) + multiset(c2) == multiset(p1[..n]) + multiset(p2[..n])
  {
    if n > 0 {
      CrossoverConservesGenes(p1, p2, keep, n - 1);
      var (c1, c2) := UniformCross(p1, p2, keep, n);
      var (d1, d2) := UniformCross(p1, p2, keep, n - 1);
      assert c1 == d1 + [c1[n - 1]];
      assert c2 == d2 + [c2[n - 1]];
      assert p1[..n] == p1[..n - 1] + [p1[n - 1]];
      assert p2[..n] == p2[..n - 1] + [p2[n - 1]];
      assert multiset([c1[n - 1]]) + multiset([c2[n - 1]]) == multiset([p1[n - 1]]) + multiset([p2[n - 1]]);
      calc {
        multiset(c1) + multiset(c2);
        multiset(d1) + multiset([c1[n - 1]]) + multiset(d2) + multiset([c2[n - 1]]);
        (multiset(d1) + multiset(d2)) + (multiset([c1[n - 1]]) + multiset([c2[n - 1]]));
        multiset(p1[..n - 1]) + multiset(p2[..n - 1]) + multiset([p1[n - 1]]) + multiset([p2[n - 1]]);
        multiset(p1[..n]) + multiset(p2[..n]);
      }
    }
  }

  lemma CrossoverKeepsBinary(p1: Chromosome, p2: Chromosome, keep: seq<bool>, n: nat)
    requires n <= |p1| && n <= |p2| && n <= |keep|
    requires Binary(p1) && Binary(p2)
    ensures Binary(UniformCross(p1, p2, keep, n).0) && Binary(UniformCross(p1, p2, keep, n).1)
  {
  }

  // ---------------------------------------------------------------------------
  // Bit-flip mutation

  /** Gene i (for i < n) is flipped to 1 - gene when flip[i] holds; the rest stay. */
  function Mutated(c: Chromosome, flip: seq<bool>, n: nat): Chromosome
    requires n <= |c| && n <= |flip|
  {
    seq(|c|, i requires 0 <= i < |c| => if i < n && flip[i] then 1 - c[i] else c[i])
  }

  function Complement(c: Chromosome): Chromosome {
    seq(|c|, i requires 0 <= i < |c| => 1 - c[i])
  }

  /** With no flip draws the chromosome is unchanged. */
  lemma MutationNoFlip(c: Chromosome, flip: seq<bool>, n: nat)
    requires n <= |c| && n <= |flip|
    requires forall i :: 0 <= i < n ==> !flip[i]
    ensures Mutated(c, flip, n) == c
  {
  }

  /** With a flip draw at every gene the chromosome becomes its bitwise complement. */
  lemma MutationAllFlip(c: Chromosome, flip: seq<bool>)
    requires |c| <= |flip|
    requires forall i :: 0 <= i < |c| ==> flip[i]
    ensures Mutated(c, flip, |c|) == Complement(c)
  {
  }

  /** Binary genes stay binary, each one either kept or complemented. */
  lemma MutationKeepsBinary(c: Chromosome, flip: seq<bool>, n: nat)
    requires n <= |c| && n <= |flip|
    requires Binary(c)
    ensures Binary(Mutated(c, flip, n))
  {
  }

  /** Mutating twice with the same draws restores the chromosome. */
  lemma MutationUndo(c: Chromosome, flip: seq<bool>, n: nat)
    requires n <= |c| && n <= |flip|
    ensures Mutated(Mutated(c, flip, n), flip, n) == c
  {
  }

  // ---------------------------------------------------------------------------
  // Generation step

  predicate PairFits(d: PairDraws, poolSize: nat, n: nat) {
    d.first < poolSize && d.second < poolSize && |d.keep| == n && |d.flip1| == n && |d.flip2| == n
  }

  /** The two mutated children of one parent pair: crossed when the gate draw holds,
      copied otherwise. */
  function Offspring(pool: seq<Chromosome>, d: PairDraws, n: nat): (seq<int>, seq<int>)
    requires PairFits(d, |pool|, n) && forall k :: 0 <= k < |pool| ==> n <= |pool[k]|
  {
    var p1 := pool[d.first];
    var p2 := pool[d.second];
    var children := if d.cross then UniformCross(p1, p2, d.keep, n) else (p1, p2);
    (Mutated(children.0, d.flip1, n), Mutated(children.1, d.flip2, n))
  }

  /** The new population: the children of each pair, two at a time, in pair order. */
  function Breed(pool: seq<Chromosome>, pairs: seq<PairDraws>, n: nat): seq<Chromosome>
    requires forall t :: 0 <= t < |pairs| ==> PairFits(pairs[t], |pool|, n)
    requires forall k :: 0 <= k < |pool| ==> n <= |pool[k]|
  {
    if pairs == [] then []
    else
      var o := Offspring(pool, pairs[|pairs| - 1], n);
      Breed(pool, pairs[..|pairs| - 1], n) + [o.0, o.1]
  }

  /** Each pair adds two children, and from a binary pool of n-gene chromosomes every child
      is binary with n genes. */
  lemma {:induction false} BreedShape(pool: seq<Chromosome>, pairs: seq<PairDraws>, n: nat)
    requires forall t :: 0 <= t < |pairs| ==> PairFits(pairs[t], |pool|, n)
    requires WellFormedPopulation(pool, n)
    ensures |Breed(pool, pairs, n)| == 2 * |pairs|
    ensures WellFormedPopulation(Breed(pool, pairs, n), n)
  {
    if pairs != [] {
      var init := pairs[..|pairs| - 1];
      BreedShape(pool, init, n);
      var d := pairs[|pairs| - 1];
      var p1 := pool[d.first];
      var p2 := pool[d.second];
      var children := if d.cross then UniformCross(p1, p2, d.keep, n) else (p1, p2);
      if d.cross {
        CrossoverKeepsBinary(p1, p2, d.keep, n);
      }
      MutationKeepsBinary(children.0, d.flip1, n);
      MutationKeepsBinary(children.1, d.flip2, n);
    }
  }

  // ---------------------------------------------------------------------------
  // Best-solution tracking

  /** f beats the best fitness so far (None stands for minus infinity). */
  predicate Exceeds(f: int, best: Option<int>) {
    best.None? || f > best.value
  }

  /** The tracked pair (solution, fitness) after scanning the chromosomes of pop in order,
      replacing it whenever a chromosome scores strictly higher. */
  function Tracked(items: seq<Item>, capacity: int, n: nat, best: (Option<Chromosome>, Option<int>),
                   pop: seq<Chromosome>): (Option<Chromosome>, Option<int>)
    requires n <= |items| && forall k :: 0 <= k < |pop| ==> n <= |pop[k]|
  {
    if pop == [] then best
    else
      var prev := Tracked(items, capacity, n, best, pop[..|pop| - 1]);
      var f := Score(items, capacity, pop[|pop| - 1], n);
      if Exceeds(f, prev.1) then (Some(pop[|pop| - 1]), Some(f)) else prev
  }

  /** A solution is held exactly when a fitness is, and the fitness is the solution's. */
  predicate BestConsistent(items: seq<Item>, capacity: int, n: nat, best: (Option<Chromosome>, Option<int>))
    requires n <= |items|
  {
    (best.0.Some? <==> best.1.Some?) &&
    (best.0.Some? ==> |best.0.value| == n && Binary(best.0.value) &&
                      best.1.value == Score(items, capacity, best.0.value, n))
  }

  /** The best fitness never decreases. */
  lemma {:induction false} TrackedMonotone(items: seq<Item>, capacity: int, n: nat,
                                           best: (Option<Chromosome>, Option<int>), pop: seq<Chromosome>)
    requires n <= |items| && forall k :: 0 <= k < |pop| ==> n <= |pop[k]|
    requires best.1.Some?
    ensures Tracked(items, capacity, n, best, pop).1.Some?
    ensures Tracked(items, capacity, n, best, pop).1.value >= best.1.value
  {
    if pop != [] {
      TrackedMonotone(items, capacity, n, best, pop[..|pop| - 1]);
    }
  }

  /** After the scan the best fitness is at least the fitness of every scanned chromosome. */
  lemma {:induction false} TrackedDominates(items: seq<Item>, capacity: int, n: nat,
                                            best: (Option<Chromosome>, Option<int>), pop: seq<Chromosome>)
    requires n <= |items| && forall k :: 0 <= k < |pop| ==> n <= |pop[k]|
    ensures var r := Tracked(items, capacity, n, best, pop);
            forall k :: 0 <= k < |pop| ==> r.1.Some? && Score(items, capacity, pop[k], n) <= r.1.value
  {
    if pop != [] {
      var init := pop[..|pop| - 1];
      TrackedDominates(items, capacity, n, best, init);
      var prev := Tracked(items, capacity, n, best, init);
      if prev.1.Some? {
        TrackedMonotone(items, capacity, n, prev, [pop[|pop| - 1]]);
      }
      assert forall k :: 0 <= k < |init| ==> init[k] == pop[k];
    }
  }

  /** Scanning a well-formed population keeps the tracked pair consistent. */
  lemma {:induction false} TrackedConsistent(items: seq<Item>, capacity: int, n: nat,
                                             best: (Option<Chromosome>, Option<int>), pop: seq<Chromosome>)
    requires n <= |items| && WellFormedPopulation(pop, n)
    requires BestConsistent(items, capacity, n, best)
    ensures BestConsistent(items, capacity, n, Tracked(items, capacity, n, best, pop))
  {
    if pop != [] {
      TrackedConsistent(items, capacity, n, best, pop[..|pop| - 1]);
    }
  }

  /** pop[j] is the first chromosome of greatest fitness in pop. */
  predicate FirstFittest(items: seq<Item>, capacity: int, n: nat, pop: seq<Chromosome>, j: nat)
    requires n <= |items| && forall k :: 0 <= k < |pop| ==> n <= |pop[k]|
  {
    j < |pop| &&
    (forall k :: 0 <= k < |pop| ==> Score(items, capacity, pop[k], n) <= Score(items, capacity, pop[j], n)) &&
    (forall k :: 0 <= k < j ==> Score(items, capacity, pop[k], n) < Score(items, capacity, pop[j], n))
  }

  /** Either nothing replaced the tracked pair, or it holds the FIRST chromosome of greatest
      fitness in pop, which beat the earlier best: a later chromosome of equal fitness never
      replaces an earlier one. */
  lemma {:induction false} TrackedFirstBest(items: seq<Item>, capacity: int, n: nat,
                                            best: (Option<Chromosome>, Option<int>), pop: seq<Chromosome>)
    requires n <= |items| && forall k :: 0 <= k < |pop| ==> n <= |pop[k]|
    ensures var r := Tracked(items, capacity, n, best, pop);
            r == best ||
            exists j: nat :: FirstFittest(items, capacity, n, pop, j) &&
              r == (Some(pop[j]), Some(Score(items, capacity, pop[j], n))) &&
              Exceeds(Score(items, capacity, pop[j], n), best.1)
  {
    if pop != [] {
      var m := |pop| - 1;
      var init := pop[..m];
      TrackedFirstBest(items, capacity, n, best, init);
      var prev := Tracked(items, capacity, n, best, init);
      var f := Score(items, capacity, pop[m], n);
      if Exceeds(f, prev.1) {
        ExceedsAll(items, capacity, n, best, init, f);
        FirstFittestLast(items, capacity, n, pop);
      } else if prev != best {
        var j: nat :| FirstFittest(items, capacity, n, init, j) &&
                      prev == (Some(init[j]), Some(Score(items, capacity, init[j], n))) &&
                      Exceeds(Score(items, capacity, init[j], n), best.1);
        FirstFittestExtend(items, capacity, n, pop, j);
      }
    }
  }

  /** The last chromosome is the first fittest when it beats every one before it. */
  lemma FirstFittestLast(items: seq<Item>, capacity: int, n: nat, pop: seq<Chromosome>)
    requires n <= |items| && forall k :: 0 <= k < |pop| ==> n <= |pop[k]|
    requires pop != []
    requires var init := pop[..|pop| - 1];
             forall k :: 0 <= k < |init| ==> Score(items, capacity, init[k], n) < Score(items, capacity, pop[|pop| - 1], n)
    ensures FirstFittest(items, capacity, n, pop, |pop| - 1)
  {
    var init := pop[..|pop| - 1];
    assert forall k :: 0 <= k < |init| ==> init[k] == pop[k];
  }

  /** The first fittest of a prefix stays the first fittest when the next chromosome does
      not score higher. */
  lemma FirstFittestExtend(items: seq<Item>, capacity: int, n: nat, pop: seq<Chromosome>, j: nat)
    requires n <= |items| && forall k :: 0 <= k < |pop| ==> n <= |pop[k]|
    requires pop != []
    requires FirstFittest(items, capacity, n, pop[..|pop| - 1], j)
    requires Score(items, capacity, pop[|pop| - 1], n) <= Score(items, capacity, pop[j], n)
    ensures FirstFittest(items, capacity, n, pop, j)
  {
    var init := pop[..|pop| - 1];
    assert forall k :: 0 <= k < |init| ==> init[k] == pop[k];
  }

  /** A fitness that beats the tracked best after a scan beats the starting best and every
      scanned chromosome. */
  lemma ExceedsAll(items: seq<Item>, capacity: int, n: nat,
                   best: (Option<Chromosome>, Option<int>), pop: seq<Chromosome>, f: int)
    requires n <= |items| && forall k :: 0 <= k < |pop| ==> n <= |pop[k]|
    requires Exceeds(f, Tracked(items, capacity, n, best, pop).1)
    ensures Exceeds(f, best.1)
    ensures forall k :: 0 <= k < |pop| ==> Score(items, capacity, pop[k], n) < f
  {
    TrackedDominates(items, capacity, n, best, pop);
    if best.1.Some? {
      TrackedMonotone(items, capacity, n, best, pop);
    }
  }

  // ---------------------------------------------------------------------------
  // Decoding

  /** The positions of the 1-genes, in increasing order. */
  function Picks(c: Chromosome): seq<nat> {
    if c == [] then []
    else Picks(c[..|c| - 1]) + (if c[|c| - 1] == 1 then [|c| - 1] else [])
  }

  predicate StrictlyIncreasing(s: seq<nat>) {
    forall a, b :: 0 <= a < b < |s| ==> s[a] < s[b]
  }

  /** p lists, in strictly increasing order, exactly the positions of c holding gene 1. */
  predicate ListsOnes(c: Chromosome, p: seq<nat>) {
    StrictlyIncreasing(p) &&
    (forall k :: 0 <= k < |p| ==> p[k] < |c| && c[p[k]] == 1) &&
    (forall i :: 0 <= i < |c| && c[i] == 1 ==> i in p)
  }

  lemma {:induction false} PicksLists(c: Chromosome)
    ensures ListsOnes(c, Picks(c))
  {
    if c != [] {
      var init := c[..|c| - 1];
      PicksLists(init);
      assert forall i :: 0 <= i < |init| ==> init[i] == c[i];
    }
  }
}
