/**
 * The genetic optimizer object: its construction (which builds the initial population) and
 * its generation loop. Fitness scoring and fitness-weighted parent selection are outside the
 * model; the parents they pick and the index of the fittest candidate arrive as draws.
 */
module Engine {
  import opened Wrappers
  import opened Geometry
  import opened Tessellation

  /** s lists each of 0 .. n-1 exactly once, as `random.shuffle` leaves `range(n)`. */
  predicate IsPermutation(s: seq<nat>, n: nat) {
    |s| == n && Distinct(s) && IndicesBelow(s, n)
  }

  /**
   * `_initialize_population`: fails when there are fewer than three points; otherwise builds
   * one candidate per shuffle of the index list. The k-th candidate's group sizes are drawn
   * by `sizes(k)`.
   */
  method InitializePopulation(points: seq<Point>, popSize: nat, shuffles: seq<seq<nat>>, sizes: nat -> (nat, nat) -> nat)
    returns (r: Result<seq<Tess>, string>)
    requires |shuffles| == popSize
    requires forall k :: 0 <= k < |shuffles| ==> IsPermutation(shuffles[k], |points|)
    requires forall k: nat :: SizeDraws(sizes(k))
    ensures r.Failure? <==> |points| < 3
    ensures r.Failure? ==> r.error == "At least 3 points are required to initialize the population."
    ensures r.Success? ==> |r.value| == popSize
    ensures r.Success? ==> forall k :: 0 <= k < |r.value| ==>
      AllValid(points, r.value[k]) && PairwiseDisjoint(r.value[k]) && TessIndicesBelow(r.value[k], |points|)
    ensures r.Success? ==> forall k :: 0 <= k < popSize ==>
      GreedyTessellation(points, shuffles[k], sizes(k), r.value[k])
  {
    if |points| < 3 {
      return Failure("At least 3 points are required to initialize the population.");
    }
    var population: seq<Tess> := [];
    for k := 0 to popSize
      invariant |population| == k
      invariant BuiltFromShuffles(points, shuffles, sizes, population)
    {
      var candidate, _ := CreateRandomTessellation(points, shuffles[k], sizes(k));
      TessellationSound(points, shuffles[k], candidate);
      AppendBuilt(points, shuffles, sizes, population, candidate);
      population := population + [candidate];
    }
    return Success(population);
  }

  /** Candidate j is the sound greedy tessellation of shuffle j under the size draws of step j. */
  ghost predicate BuiltFromShuffles(points: seq<Point>, shuffles: seq<seq<nat>>, sizes: nat -> (nat, nat) -> nat, population: seq<Tess>)
    requires forall k: nat :: SizeDraws(sizes(k))
  {
    |population| <= |shuffles| &&
    forall j :: 0 <= j < |population| ==>
      SoundCandidate(points, population[j]) && GreedyTessellation(points, shuffles[j], sizes(j), population[j])
  }

  lemma AppendBuilt(points: seq<Point>, shuffles: seq<seq<nat>>, sizes: nat -> (nat, nat) -> nat, population: seq<Tess>, candidate: Tess)
    requires forall k: nat :: SizeDraws(sizes(k))
    requires |population| < |shuffles| && BuiltFromShuffles(points, shuffles, sizes, population)
    requires SoundCandidate(points, candidate)
    requires GreedyTessellation(points, shuffles[|population|], sizes(|population|), candidate)
    ensures BuiltFromShuffles(points, shuffles, sizes, population + [candidate])
  {
  }

  /** A candidate of valid, pairwise disjoint polygons over the points. */
  ghost predicate SoundCandidate(points: seq<Point>, t: Tess) {
    AllValid(points, t) && PairwiseDisjoint(t) && TessIndicesBelow(t, |points|)
  }

  /** A tessellation of a permutation of the point indices is a sound candidate. */
  lemma TessellationSound(points: seq<Point>, indices: seq<nat>, t: Tess)
    requires IsPermutation(indices, |points|) && Tessellates(points, indices, t)
    ensures SoundCandidate(points, t)
  {
  }

  /**
   * `_initialize_population` as written: one index list is shuffled in place before each
   * candidate, and a candidate for which the builder kept no group and accepted the whole list
   * holds that very list. Every later shuffle rearranges it too, so at the end such a
   * candidate is the single polygon of the last shuffle, whether or not that is convex.
   */
  method InitializePopulationAsWritten(points: seq<Point>, popSize: nat, shuffles: seq<seq<nat>>, sizes: nat -> (nat, nat) -> nat)
    returns (r: Result<seq<Tess>, string>)
    requires |shuffles| == popSize
    requires forall k :: 0 <= k < |shuffles| ==>
      |shuffles[k]| == |points| && Distinct(shuffles[k]) && IndicesBelow(shuffles[k], |points|)
    requires forall k: nat :: SizeDraws(sizes(k))
    ensures r.Failure? <==> |points| < 3
    ensures r.Failure? ==> r.error == "At least 3 points are required to initialize the population."
    ensures r.Success? ==> |r.value| == popSize
    ensures r.Success? ==> forall k :: 0 <= k < popSize ==>
      if KeepsInput(points, shuffles[k], sizes(k)) then r.value[k] == [shuffles[popSize - 1]]
      else AllValid(points, r.value[k]) && PairwiseDisjoint(r.value[k])
  {
    if |points| < 3 {
      return Failure("At least 3 points are required to initialize the population.");
    }
    var population: seq<Tess> := [];
    var shared: seq<bool> := [];
    var indices: seq<nat> := seq(|points|, i => i);
    for k := 0 to popSize
      invariant |population| == k && |shared| == k
      invariant k > 0 ==> indices == shuffles[k - 1]
      invariant SharedFlags(points, shuffles[..k], sizes, shared)
      invariant HoldsShared(points, population, shared, indices)
    {
      ReshuffledHolds(points, population, shared, indices, shuffles[k]);
      indices := shuffles[k];
      population := Reshuffled(population, shared, indices);
      var candidate, keepsInput := CreateRandomTessellation(points, indices, sizes(k));
      AppendCandidate(points, population, shared, indices, candidate, keepsInput);
      AppendFlag(points, shuffles, k, sizes, shared, keepsInput);
      population := population + [candidate];
      shared := shared + [keepsInput];
    }
    assert shuffles[..popSize] == shuffles;
    return Success(population);
  }

  /** Flag j says whether candidate j holds the shared index list. */
  ghost predicate SharedFlags(points: seq<Point>, shuffles: seq<seq<nat>>, sizes: nat -> (nat, nat) -> nat, shared: seq<bool>)
    requires forall k :: 0 <= k < |shuffles| ==> IndicesBelow(shuffles[k], |points|)
    requires forall k: nat :: SizeDraws(sizes(k))
  {
    |shared| == |shuffles| && forall j :: 0 <= j < |shared| ==> shared[j] == KeepsInput(points, shuffles[j], sizes(j))
  }

  lemma AppendFlag(points: seq<Point>, shuffles: seq<seq<nat>>, k: nat, sizes: nat -> (nat, nat) -> nat, shared: seq<bool>, keepsInput: bool)
    requires k < |shuffles|
    requires forall j :: 0 <= j < |shuffles| ==> IndicesBelow(shuffles[j], |points|)
    requires forall j: nat :: SizeDraws(sizes(j))
    requires SharedFlags(points, shuffles[..k], sizes, shared)
    requires keepsInput == KeepsInput(points, shuffles[k], sizes(k))
    ensures SharedFlags(points, shuffles[..k + 1], sizes, shared + [keepsInput])
  {
  }

  /** The candidates that share the index list hold it in its current order; the others are valid. */
  ghost predicate HoldsShared(points: seq<Point>, population: seq<Tess>, shared: seq<bool>, indices: seq<nat>)
    requires |population| == |shared|
  {
    forall j :: 0 <= j < |population| ==>
      if shared[j] then population[j] == [indices]
      else AllValid(points, population[j]) && PairwiseDisjoint(population[j])
  }

  /** The population after `random.shuffle` rearranges the index list the sharing candidates hold. */
  function Reshuffled(population: seq<Tess>, shared: seq<bool>, indices: seq<nat>): (r: seq<Tess>)
    requires |population| == |shared|
    ensures |r| == |population|
    ensures forall j :: 0 <= j < |r| && !shared[j] ==> r[j] == population[j]
    ensures forall j :: 0 <= j < |r| && shared[j] ==> r[j] == [indices]
  {
    seq(|population|, j requires 0 <= j < |population| => if shared[j] then [indices] else population[j])
  }

  /** After a shuffle the sharing candidates hold the list in its new order; the others are untouched. */
  lemma ReshuffledHolds(points: seq<Point>, population: seq<Tess>, shared: seq<bool>, before: seq<nat>, after: seq<nat>)
    requires |population| == |shared|
    requires HoldsShared(points, population, shared, before)
    ensures HoldsShared(points, Reshuffled(population, shared, after), shared, after)
  {
  }

  /** Appending the new candidate, shared or valid, keeps the population in shape. */
  lemma AppendCandidate(points: seq<Point>, population: seq<Tess>, shared: seq<bool>, indices: seq<nat>, candidate: Tess, keepsInput: bool)
    requires |population| == |shared|
    requires HoldsShared(points, population, shared, indices)
    requires keepsInput ==> candidate == [indices]
    requires !keepsInput ==> AllValid(points, candidate) && PairwiseDisjoint(candidate)
    ensures HoldsShared(points, population + [candidate], shared + [keepsInput], indices)
  {
  }

  /** Five points in convex position. */
  const Pentagon: seq<Point> := [(0.0, 0.0), (4.0, 0.0), (5.0, 3.0), (2.0, 5.0), (-1.0, 3.0)]

  /** Group sizes that take four indices whenever there are four to take. */
  function FourFirst(step: nat, hi: nat): nat {
    if hi >= 4 then 4 else hi
  }

  /**
   * The as-written population can hold a polygon that is not convex: the star order
   * 0, 2, 4, 1, 3 of the pentagon is convex by the test while its first four vertices are not,
   * so the builder keeps the whole shuffled list; the next shuffle 0, 1, 3, 2, 4 turns it into
   * a self-crossing loop.
   */
  lemma SharedIndexListBreaksValidity()
    ensures SizeDraws(FourFirst)
    ensures IsPermutation([0, 2, 4, 1, 3], 5) && IsPermutation([0, 1, 3, 2, 4], 5)
    ensures KeepsInput(Pentagon, [0, 2, 4, 1, 3], FourFirst)
    ensures !AllValid(Pentagon, [[0, 1, 3, 2, 4]])
  {
    FourFirstInRange();
    InverseDistinct([0, 2, 4, 1, 3], [0, 3, 1, 4, 2]);
    InverseDistinct([0, 1, 3, 2, 4], [0, 1, 3, 2, 4]);
    StarValid();
    StarFrontInvalid();
    assert [0, 2, 4, 1, 3][..FourFirst(0, Min(6, 5))] == [0, 2, 4, 1];
    CrossedLoopInvalid();
    assert [[0, 1, 3, 2, 4]][0] == [0, 1, 3, 2, 4];
  }

  lemma FourFirstInRange()
    ensures SizeDraws(FourFirst)
  {
    forall step: nat, hi: nat | 3 <= hi
      ensures 3 <= FourFirst(step, hi) <= hi
    {
    }
  }

  /** A list whose positions a second list recovers from its values repeats no value. */
  lemma InverseDistinct(s: seq<nat>, position: seq<nat>)
    requires forall i :: 0 <= i < |s| ==> s[i] < |position| && position[s[i]] == i
    ensures Distinct(s)
  {
  }

  /** The star order of the pentagon turns the same way at every vertex. */
  lemma StarValid()
    ensures IndicesBelow([0, 2, 4, 1, 3], |Pentagon|) && ValidPolygon(Pentagon, [0, 2, 4, 1, 3])
  {
    var star := Vertices(Pentagon, [0, 2, 4, 1, 3]);
    assert star == [(0.0, 0.0), (5.0, 3.0), (-1.0, 3.0), (4.0, 0.0), (2.0, 5.0)];
    assert CrossAt(star, 0) == -20.0 && CrossAt(star, 1) == -19.0 && CrossAt(star, 2) == -18.0;
    assert CrossAt(star, 3) == -18.0 && CrossAt(star, 4) == -19.0;
  }

  /** The first four vertices of the star order turn both ways. */
  lemma StarFrontInvalid()
    ensures IndicesBelow([0, 2, 4, 1], |Pentagon|) && !ValidPolygon(Pentagon, [0, 2, 4, 1])
  {
    var four := Vertices(Pentagon, [0, 2, 4, 1]);
    assert four == [(0.0, 0.0), (5.0, 3.0), (-1.0, 3.0), (4.0, 0.0)];
    assert CrossAt(four, 0) == 12.0 && CrossAt(four, 2) == -18.0;
  }

  /** The order 0, 1, 3, 2, 4 crosses itself and turns both ways. */
  lemma CrossedLoopInvalid()
    ensures IndicesBelow([0, 1, 3, 2, 4], |Pentagon|) && !ValidPolygon(Pentagon, [0, 1, 3, 2, 4])
  {
    var loop := Vertices(Pentagon, [0, 1, 3, 2, 4]);
    assert loop == [(0.0, 0.0), (4.0, 0.0), (2.0, 5.0), (5.0, 3.0), (-1.0, 3.0)];
    assert CrossAt(loop, 0) == -18.0 && CrossAt(loop, 3) == 11.0;
  }


  /**
   * The draws of one run of `optimize`, keyed by generation g, pair i and offspring o
   * (0 for parent1 crossed with parent2, 1 for the reverse). A draw given an inclusive upper
   * bound hi stands for the `randint` call with that bound.
   */
  datatype Draws = Draws(
    parents: (nat, nat, nat) -> (nat, nat),  // (g, i, population size): the two picks of `_select_parents`
    split: (nat, nat, nat, nat) -> nat,      // (g, i, o, hi): crossover's randint(1, hi)
    coin: (nat, nat, nat) -> real,           // (g, i, o): mutation's random()
    index: (nat, nat, nat, nat) -> nat,      // (g, i, o, hi): mutation's randint(0, hi)
    cut: (nat, nat, nat, nat) -> nat,        // (g, i, o, hi): mutation's randint(1, hi)
    best: nat -> nat)                        // population size: the argmin of the final fitness scores

  /** Every draw lies in the range of the call it stands for. */
  ghost predicate DrawsInRange(d: Draws) {
    (forall g, i, size :: 0 < size ==> d.parents(g, i, size).0 < size && d.parents(g, i, size).1 < size) &&
    (forall g, i, o, hi :: 1 <= hi ==> 1 <= d.split(g, i, o, hi) <= hi) &&
    (forall g, i, o :: 0.0 <= d.coin(g, i, o) < 1.0) &&
    (forall g, i, o, hi :: d.index(g, i, o, hi) <= hi) &&
    (forall g, i, o, hi :: 1 <= hi ==> 1 <= d.cut(g, i, o, hi) <= hi) &&
    (forall size :: 0 < size ==> d.best(size) < size)
  }

  /** The split point `_crossover` draws for parent1: `randint(1, len - 1)`, or 1 for at most one polygon. */
  function SplitFor(d: Draws, g: nat, i: nat, o: nat, parent1: Tess): (split: nat)
    requires DrawsInRange(d)
    ensures CrossoverSplit(parent1, split)
  {
    if |parent1| > 1 then d.split(g, i, o, |parent1| - 1) else 1
  }

  /** Polygons drawn from two candidates that index n points index n points too. */
  lemma {:induction false} CrossoverIndicesBelow(parent1: Tess, parent2: Tess, split: nat, n: nat)
    requires CrossoverSplit(parent1, split)
    requires TessIndicesBelow(parent1, n) && TessIndicesBelow(parent2, n)
    ensures TessIndicesBelow(Crossover(parent1, parent2, split), n)
  {
    var offspring := Crossover(parent1, parent2, split);
    var head := parent1[..Min(split, |parent1|)];
    forall k | 0 <= k < |offspring|
      ensures IndicesBelow(offspring[k], n)
    {
      assert offspring[k] in head || offspring[k] in parent2;
    }
  }

  /** The mutation index `randint(0, len - 1)` drawn for one offspring, or 0 when it has no polygon. */
  function MutationIndex(d: Draws, g: nat, i: nat, o: nat, crossed: Tess): (idx: nat)
    requires DrawsInRange(d)
    ensures crossed != [] ==> idx < |crossed|
  {
    if crossed != [] then d.index(g, i, o, |crossed| - 1) else 0
  }

  /** The mutation cut `randint(1, len(polygon) - 2)` for a polygon of more than three indices, or 1. */
  function MutationCut(d: Draws, g: nat, i: nat, o: nat, crossed: Tess, idx: nat): (cut: nat)
    requires DrawsInRange(d)
    requires crossed != [] ==> idx < |crossed|
    ensures crossed != [] && |crossed[idx]| > 3 ==> 1 <= cut <= |crossed[idx]| - 2
  {
    if crossed != [] && |crossed[idx]| > 3 then d.cut(g, i, o, |crossed[idx]| - 2) else 1
  }

  /**
   * One offspring, `_mutate(_crossover(parent1, parent2))`, with the draws of generation g,
   * pair i, offspring o.
   */
  function Child(parent1: Tess, parent2: Tess, mutationRate: real, d: Draws, g: nat, i: nat, o: nat): (child: Tess)
    requires DrawsInRange(d)
    ensures AllIndices(child) == AllIndices(Crossover(parent1, parent2, SplitFor(d, g, i, o, parent1)))
  {
    var crossed := Crossover(parent1, parent2, SplitFor(d, g, i, o, parent1));
    var idx := MutationIndex(d, g, i, o, crossed);
    Mutated(crossed, mutationRate, d.coin(g, i, o), idx, MutationCut(d, g, i, o, crossed, idx))
  }

  /**
   * Offspring o of pair i of generation g: parent1 crossed with parent2 for o = 0, the reverse
   * for o = 1. Both parents are candidates of the current population, and the offspring holds
   * the indices of the crossover that puts the named parent first.
   */
  function Offspring(current: seq<Tess>, mutationRate: real, d: Draws, g: nat, i: nat, o: nat): (child: Tess)
    requires DrawsInRange(d) && |current| > 0
    ensures d.parents(g, i, |current|).0 < |current| && d.parents(g, i, |current|).1 < |current|
    ensures o == 0 ==> (AllIndices(child) ==
      AllIndices(Crossover(current[d.parents(g, i, |current|).0], current[d.parents(g, i, |current|).1],
                           SplitFor(d, g, i, 0, current[d.parents(g, i, |current|).0]))))
    ensures o != 0 ==> (AllIndices(child) ==
      AllIndices(Crossover(current[d.parents(g, i, |current|).1], current[d.parents(g, i, |current|).0],
                           SplitFor(d, g, i, 1, current[d.parents(g, i, |current|).1]))))
  {
    var picks := d.parents(g, i, |current|);
    if o == 0 then Child(current[picks.0], current[picks.1], mutationRate, d, g, i, 0)
    else Child(current[picks.1], current[picks.0], mutationRate, d, g, i, 1)
  }

  /** The population one generation breeds: pair i contributes candidates 2i and 2i + 1. */
  function Generation(current: seq<Tess>, popSize: nat, mutationRate: real, d: Draws, g: nat): (next: seq<Tess>)
    requires DrawsInRange(d) && (popSize >= 2 ==> |current| > 0)
    ensures |next| == 2 * (popSize / 2)
  {
    seq(2 * (popSize / 2), k requires 0 <= k < 2 * (popSize / 2) => Offspring(current, mutationRate, d, g, k / 2, k % 2))
  }

  /** The population after n generations, starting from initial. */
  function Evolve(initial: seq<Tess>, popSize: nat, mutationRate: real, d: Draws, n: nat): (population: seq<Tess>)
    requires DrawsInRange(d) && (popSize >= 2 ==> |initial| > 0)
    ensures n == 0 ==> population == initial
    ensures n > 0 ==> |population| == 2 * (popSize / 2)
    ensures popSize >= 2 ==> |population| > 0
  {
    if n == 0 then initial
    else Generation(Evolve(initial, popSize, mutationRate, d, n - 1), popSize, mutationRate, d, n - 1)
  }

  /** Candidate k of a partly bred generation is offspring k % 2 of pair k / 2. */
  ghost predicate BredSoFar(next: seq<Tess>, current: seq<Tess>, mutationRate: real, d: Draws, g: nat)
    requires DrawsInRange(d)
  {
    forall k :: 0 <= k < |next| ==> |current| > 0 && next[k] == Offspring(current, mutationRate, d, g, k / 2, k % 2)
  }

  lemma BredPairAppend(next: seq<Tess>, current: seq<Tess>, mutationRate: real, d: Draws, g: nat, i: nat,
                       offspring1: Tess, offspring2: Tess)
    requires DrawsInRange(d) && |current| > 0
    requires |next| == 2 * i && BredSoFar(next, current, mutationRate, d, g)
    requires offspring1 == Offspring(current, mutationRate, d, g, i, 0)
    requires offspring2 == Offspring(current, mutationRate, d, g, i, 1)
    ensures BredSoFar(next + [offspring1, offspring2], current, mutationRate, d, g)
  {
    var longer := next + [offspring1, offspring2];
    forall k | 0 <= k < |longer|
      ensures longer[k] == Offspring(current, mutationRate, d, g, k / 2, k % 2)
    {
      if k == 2 * i {
        assert k / 2 == i && k % 2 == 0;
      } else if k == 2 * i + 1 {
        assert k / 2 == i && k % 2 == 1;
      } else {
        assert longer[k] == next[k];
      }
    }
  }

  /** A fully bred generation is the one `Generation` describes. */
  lemma BredGeneration(next: seq<Tess>, current: seq<Tess>, popSize: nat, mutationRate: real, d: Draws, g: nat)
    requires DrawsInRange(d) && (popSize >= 2 ==> |current| > 0)
    requires |next| == 2 * (popSize / 2) && BredSoFar(next, current, mutationRate, d, g)
    ensures next == Generation(current, popSize, mutationRate, d, g)
  {
  }

  /** Crossing and mutating candidates that index n points gives one that indexes n points. */
  lemma ChildIndicesBelow(parent1: Tess, parent2: Tess, mutationRate: real, d: Draws, g: nat, i: nat, o: nat, n: nat)
    requires DrawsInRange(d)
    requires TessIndicesBelow(parent1, n) && TessIndicesBelow(parent2, n)
    ensures TessIndicesBelow(Child(parent1, parent2, mutationRate, d, g, i, o), n)
  {
    var split := SplitFor(d, g, i, o, parent1);
    var crossed := Crossover(parent1, parent2, split);
    var idx := MutationIndex(d, g, i, o, crossed);
    CrossoverIndicesBelow(parent1, parent2, split, n);
    MutatedIndicesBelow(crossed, mutationRate, d.coin(g, i, o), idx, MutationCut(d, g, i, o, crossed, idx), n);
  }

  /** With mutation rate 0 every offspring is the plain crossover result. */
  lemma ZeroRateChild(parent1: Tess, parent2: Tess, d: Draws, g: nat, i: nat, o: nat)
    requires DrawsInRange(d)
    ensures Child(parent1, parent2, 0.0, d, g, i, o) == Crossover(parent1, parent2, SplitFor(d, g, i, o, parent1))
  {
    assert 0.0 <= d.coin(g, i, o);
  }

  /** Every candidate of the population names only the n points. */
  predicate PopulationBelow(population: seq<Tess>, n: nat) {
    forall k :: 0 <= k < |population| ==> TessIndicesBelow(population[k], n)
  }

  /** A generation bred from candidates that index n points holds only such candidates. */
  lemma GenerationIndicesBelow(current: seq<Tess>, popSize: nat, mutationRate: real, d: Draws, g: nat, n: nat)
    requires DrawsInRange(d) && (popSize >= 2 ==> |current| > 0)
    requires PopulationBelow(current, n)
    ensures PopulationBelow(Generation(current, popSize, mutationRate, d, g), n)
  {
    var next := Generation(current, popSize, mutationRate, d, g);
    forall k | 0 <= k < |next|
      ensures TessIndicesBelow(next[k], n)
    {
      OffspringIndicesBelow(current, mutationRate, d, g, k / 2, k % 2, n);
    }
  }

  lemma OffspringIndicesBelow(current: seq<Tess>, mutationRate: real, d: Draws, g: nat, i: nat, o: nat, n: nat)
    requires DrawsInRange(d) && |current| > 0
    requires PopulationBelow(current, n)
    ensures TessIndicesBelow(Offspring(current, mutationRate, d, g, i, o), n)
  {
    var picks := d.parents(g, i, |current|);
    ChildIndicesBelow(current[picks.0], current[picks.1], mutationRate, d, g, i, 0, n);
    ChildIndicesBelow(current[picks.1], current[picks.0], mutationRate, d, g, i, 1, n);
  }

  /** One more generation breeds from the population the earlier ones left. */
  lemma EvolveStep(initial: seq<Tess>, popSize: nat, mutationRate: real, d: Draws, k: nat)
    requires DrawsInRange(d) && (popSize >= 2 ==> |initial| > 0)
    ensures Evolve(initial, popSize, mutationRate, d, k + 1) ==
      Generation(Evolve(initial, popSize, mutationRate, d, k), popSize, mutationRate, d, k)
  {
  }

  /** Every generation keeps the candidates naming only the n points. */
  lemma {:induction false} EvolveIndicesBelow(initial: seq<Tess>, popSize: nat, mutationRate: real, d: Draws, m: nat, n: nat)
    requires DrawsInRange(d) && (popSize >= 2 ==> |initial| > 0)
    requires PopulationBelow(initial, n)
    ensures PopulationBelow(Evolve(initial, popSize, mutationRate, d, m), n)
  {
    if m > 0 {
      var k: nat := m - 1;
      var previous := Evolve(initial, popSize, mutationRate, d, k);
      EvolveIndicesBelow(initial, popSize, mutationRate, d, k, n);
      GenerationIndicesBelow(previous, popSize, mutationRate, d, k, n);
      EvolveStep(initial, popSize, mutationRate, d, k);
    }
  }

  /** q is a contiguous run of the indices of p. */
  predicate PieceOf(q: Polygon, p: Polygon) {
    exists a, b :: 0 <= a <= b <= |p| && q == p[a..b]
  }

  /** q is a piece of some polygon of some candidate of the pool. */
  ghost predicate FromPool(q: Polygon, pool: seq<Tess>) {
    exists j, l :: 0 <= j < |pool| && 0 <= l < |pool[j]| && PieceOf(q, pool[j][l])
  }

  /** Every polygon of the candidate comes from the pool. */
  ghost predicate TessFromPool(t: Tess, pool: seq<Tess>) {
    forall k :: 0 <= k < |t| ==> FromPool(t[k], pool)
  }

  /** Every polygon of every candidate of the population comes from the pool. */
  ghost predicate PopulationFromPool(population: seq<Tess>, pool: seq<Tess>) {
    forall c :: 0 <= c < |population| ==> TessFromPool(population[c], pool)
  }

  lemma PieceOfPiece(q: Polygon, r: Polygon, p: Polygon)
    requires PieceOf(q, r) && PieceOf(r, p)
    ensures PieceOf(q, p)
  {
    var a, b :| 0 <= a <= b <= |p| && r == p[a..b];
    var c, e :| 0 <= c <= e <= |r| && q == r[c..e];
    assert forall t :: 0 <= t < |q| ==> q[t] == p[a + c + t];
    assert q == p[a + c..a + e];
  }

  /** A piece of a polygon that comes from the pool comes from the pool. */
  lemma PieceFromPool(q: Polygon, r: Polygon, pool: seq<Tess>)
    requires PieceOf(q, r) && FromPool(r, pool)
    ensures FromPool(q, pool)
  {
    var j, l :| 0 <= j < |pool| && 0 <= l < |pool[j]| && PieceOf(r, pool[j][l]);
    PieceOfPiece(q, r, pool[j][l]);
  }

  /** Each polygon of t is a piece of some polygon of source. */
  ghost predicate PiecesOfSome(t: Tess, source: Tess) {
    forall k :: 0 <= k < |t| ==> exists p :: p in source && PieceOf(t[k], p)
  }

  /** Each polygon mutation leaves is a polygon of its input or one of the two pieces of the cut one. */
  lemma MutatedPieces(tessellation: Tess, mutationRate: real, coin: real, idx: nat, splitPoint: nat)
    requires MutationDraws(tessellation, mutationRate, coin, idx, splitPoint)
    ensures PiecesOfSome(Mutated(tessellation, mutationRate, coin, idx, splitPoint), tessellation)
  {
    var mutated := Mutated(tessellation, mutationRate, coin, idx, splitPoint);
    forall k | 0 <= k < |mutated|
      ensures exists p :: p in tessellation && PieceOf(mutated[k], p)
    {
      var p: Polygon;
      if Splits(tessellation, mutationRate, coin, idx) && k == idx {
        p := tessellation[idx];
        assert mutated[k] == p[0..splitPoint];
      } else if Splits(tessellation, mutationRate, coin, idx) && k == |tessellation| {
        p := tessellation[idx];
        assert mutated[k] == p[splitPoint..|p|];
      } else {
        p := tessellation[k];
        assert mutated[k] == p[0..|p|];
      }
      assert PieceOf(mutated[k], p);
    }
  }

  /** Every polygon crossover picks is a polygon of one parent. */
  lemma CrossoverFromParents(parent1: Tess, parent2: Tess, split: nat, p: Polygon)
    requires CrossoverSplit(parent1, split)
    requires p in Crossover(parent1, parent2, split)
    ensures p in parent1 || p in parent2
  {
    var head := parent1[..Min(split, |parent1|)];
    assert p in head || p in parent2;
    assert p in head ==> p in parent1;
  }

  /** An offspring is its parents' crossover mutated with draws in range. */
  lemma ChildIsMutation(parent1: Tess, parent2: Tess, mutationRate: real, d: Draws, g: nat, i: nat, o: nat)
    requires DrawsInRange(d)
    ensures var crossed := Crossover(parent1, parent2, SplitFor(d, g, i, o, parent1));
      var idx := MutationIndex(d, g, i, o, crossed);
      var coin, cut := d.coin(g, i, o), MutationCut(d, g, i, o, crossed, idx);
      && MutationDraws(crossed, mutationRate, coin, idx, cut)
      && Child(parent1, parent2, mutationRate, d, g, i, o) == Mutated(crossed, mutationRate, coin, idx, cut)
  {
  }

  /** Each polygon of t is a polygon of parent1 or parent2, or a piece of one. */
  ghost predicate PiecesOfParents(t: Tess, parent1: Tess, parent2: Tess) {
    forall k :: 0 <= k < |t| ==> exists p :: (p in parent1 || p in parent2) && PieceOf(t[k], p)
  }

  /** Mutating a crossover of two candidates leaves only pieces of their polygons. */
  lemma MutatedCrossoverPieces(parent1: Tess, parent2: Tess, split: nat, mutationRate: real, coin: real, idx: nat, cut: nat)
    requires CrossoverSplit(parent1, split)
    requires MutationDraws(Crossover(parent1, parent2, split), mutationRate, coin, idx, cut)
    ensures PiecesOfParents(Mutated(Crossover(parent1, parent2, split), mutationRate, coin, idx, cut), parent1, parent2)
  {
    var crossed := Crossover(parent1, parent2, split);
    MutatedPieces(crossed, mutationRate, coin, idx, cut);
    CrossoverPieces(parent1, parent2, split, Mutated(crossed, mutationRate, coin, idx, cut));
  }

  /** Pieces of a crossover's polygons are pieces of its parents' polygons. */
  lemma CrossoverPieces(parent1: Tess, parent2: Tess, split: nat, t: Tess)
    requires CrossoverSplit(parent1, split)
    requires PiecesOfSome(t, Crossover(parent1, parent2, split))
    ensures PiecesOfParents(t, parent1, parent2)
  {
    forall k | 0 <= k < |t|
      ensures exists p :: (p in parent1 || p in parent2) && PieceOf(t[k], p)
    {
      var p :| p in Crossover(parent1, parent2, split) && PieceOf(t[k], p);
      CrossoverFromParents(parent1, parent2, split, p);
    }
  }

  /**
   * An offspring is made of its parents' polygons: each of its polygons is a polygon of a
   * parent, or one of the two pieces mutation cut one into.
   */
  lemma ChildFromParents(parent1: Tess, parent2: Tess, mutationRate: real, d: Draws, g: nat, i: nat, o: nat)
    requires DrawsInRange(d)
    ensures PiecesOfParents(Child(parent1, parent2, mutationRate, d, g, i, o), parent1, parent2)
  {
    var split := SplitFor(d, g, i, o, parent1);
    var crossed := Crossover(parent1, parent2, split);
    var idx := MutationIndex(d, g, i, o, crossed);
    ChildIsMutation(parent1, parent2, mutationRate, d, g, i, o);
    MutatedCrossoverPieces(parent1, parent2, split, mutationRate, d.coin(g, i, o), idx, MutationCut(d, g, i, o, crossed, idx));
  }

  /** Parents from the pool give an offspring from the pool. */
  lemma ChildFromPool(parent1: Tess, parent2: Tess, mutationRate: real, d: Draws, g: nat, i: nat, o: nat, pool: seq<Tess>)
    requires DrawsInRange(d)
    requires TessFromPool(parent1, pool) && TessFromPool(parent2, pool)
    ensures TessFromPool(Child(parent1, parent2, mutationRate, d, g, i, o), pool)
  {
    var child := Child(parent1, parent2, mutationRate, d, g, i, o);
    ChildFromParents(parent1, parent2, mutationRate, d, g, i, o);
    forall k | 0 <= k < |child|
      ensures FromPool(child[k], pool)
    {
      var p :| (p in parent1 || p in parent2) && PieceOf(child[k], p);
      var j :| (0 <= j < |parent1| && parent1[j] == p) || (0 <= j < |parent2| && parent2[j] == p);
      PieceFromPool(child[k], p, pool);
    }
  }

  /** A generation bred from a population whose polygons come from the pool has polygons from the pool. */
  lemma GenerationFromPool(current: seq<Tess>, popSize: nat, mutationRate: real, d: Draws, g: nat, pool: seq<Tess>)
    requires DrawsInRange(d) && (popSize >= 2 ==> |current| > 0)
    requires PopulationFromPool(current, pool)
    ensures PopulationFromPool(Generation(current, popSize, mutationRate, d, g), pool)
  {
    var next := Generation(current, popSize, mutationRate, d, g);
    forall c | 0 <= c < |next|
      ensures TessFromPool(next[c], pool)
    {
      OffspringFromPool(current, mutationRate, d, g, c / 2, c % 2, pool);
    }
  }

  lemma OffspringFromPool(current: seq<Tess>, mutationRate: real, d: Draws, g: nat, i: nat, o: nat, pool: seq<Tess>)
    requires DrawsInRange(d) && |current| > 0
    requires PopulationFromPool(current, pool)
    ensures TessFromPool(Offspring(current, mutationRate, d, g, i, o), pool)
  {
    var picks := d.parents(g, i, |current|);
    var parent1, parent2 := current[picks.0], current[picks.1];
    assert TessFromPool(parent1, pool) && TessFromPool(parent2, pool);
    ChildFromPool(parent1, parent2, mutationRate, d, g, i, 0, pool);
    ChildFromPool(parent2, parent1, mutationRate, d, g, i, 1, pool);
  }

  /** A polygon of a candidate is a piece of itself, so a population comes from its own pool. */
  lemma PopulationFromItself(population: seq<Tess>)
    ensures PopulationFromPool(population, population)
  {
    forall c, k | 0 <= c < |population| && 0 <= k < |population[c]|
      ensures FromPool(population[c][k], population)
    {
      var q := population[c][k];
      assert q == q[0..|q|];
      assert PieceOf(q, population[c][k]);
    }
  }

  /**
   * The search invents no polygon: after any number of generations every polygon of every
   * candidate is a contiguous run of the indices of a polygon of the initial population.
   */
  lemma {:induction false} EvolveFromInitial(initial: seq<Tess>, popSize: nat, mutationRate: real, d: Draws, m: nat)
    requires DrawsInRange(d) && (popSize >= 2 ==> |initial| > 0)
    ensures PopulationFromPool(Evolve(initial, popSize, mutationRate, d, m), initial)
  {
    if m == 0 {
      PopulationFromItself(initial);
    } else {
      var k: nat := m - 1;
      EvolveFromInitial(initial, popSize, mutationRate, d, k);
      GenerationFromPool(Evolve(initial, popSize, mutationRate, d, k), popSize, mutationRate, d, k, initial);
      EvolveStep(initial, popSize, mutationRate, d, k);
    }
  }

  class PolygonateGA {
    const points: seq<Point>
    const popSize: nat
    const generations: nat
    const mutationRate: real
    var population: seq<Tess>

    /**
     * The object invariant: at least three points, a population of the initial size or of
     * the size one generation produces, and candidates that only index the points.
     */
    ghost predicate Valid()
      reads this
    {
      |points| >= 3 &&
      (|population| == popSize || |population| == 2 * (popSize / 2)) &&
      PopulationBelow(population, |points|)
    }

    constructor (points: seq<Point>, popSize: nat, generations: nat, mutationRate: real, population: seq<Tess>)
      requires |points| >= 3 && |population| == popSize
      requires forall k :: 0 <= k < |population| ==> TessIndicesBelow(population[k], |points|)
      ensures this.points == points && this.popSize == popSize && this.generations == generations
      ensures this.mutationRate == mutationRate && this.population == population
      ensures Valid()
    {
      this.points := points;
      this.popSize := popSize;
      this.generations := generations;
      this.mutationRate := mutationRate;
      this.population := population;
    }

    /**
     * `__init__`: stores the configuration and builds the initial population, failing with
     * the population builder's error when there are fewer than three points.
     */
    static method Create(points: seq<Point>, popSize: nat, generations: nat, mutationRate: real,
                         shuffles: seq<seq<nat>>, sizes: nat -> (nat, nat) -> nat)
      returns (r: Result<PolygonateGA, string>)
      requires |shuffles| == popSize
      requires forall k :: 0 <= k < |shuffles| ==> IsPermutation(shuffles[k], |points|)
      requires forall k: nat :: SizeDraws(sizes(k))
      ensures r.Failure? <==> |points| < 3
      ensures r.Failure? ==> r.error == "At least 3 points are required to initialize the population."
      ensures r.Success? ==> fresh(r.value) && r.value.Valid()
      ensures r.Success? ==> r.value.points == points && r.value.popSize == popSize
      ensures r.Success? ==> r.value.generations == generations && r.value.mutationRate == mutationRate
      ensures r.Success? ==> |r.value.population| == popSize
      ensures r.Success? ==> forall k :: 0 <= k < popSize ==>
        PairwiseDisjoint(r.value.population[k]) && AllValid(points, r.value.population[k])
      ensures r.Success? ==> forall k :: 0 <= k < popSize ==>
        GreedyTessellation(points, shuffles[k], sizes(k), r.value.population[k])
    {
      var initial := InitializePopulation(points, popSize, shuffles, sizes);
      match initial
      case Failure(e) =>
        return Failure(e);
      case Success(population) =>
        var ga := new PolygonateGA(points, popSize, generations, mutationRate, population);
        return Success(ga);
    }

    /** One offspring, `_mutate(_crossover(parent1, parent2))`, with the draws of generation g, pair i, offspring o. */
    method Breed(parent1: Tess, parent2: Tess, d: Draws, g: nat, i: nat, o: nat) returns (child: Tess)
      requires DrawsInRange(d)
      ensures child == Child(parent1, parent2, mutationRate, d, g, i, o)
    {
      var split := SplitFor(d, g, i, o, parent1);
      var crossed := Crossover(parent1, parent2, split);
      var idx := MutationIndex(d, g, i, o, crossed);
      var cut := MutationCut(d, g, i, o, crossed, idx);
      child := Mutate(crossed, mutationRate, d.coin(g, i, o), idx, cut);
    }

    /**
     * One pass of the generation loop, pair i of generation g: select two parents and breed
     * parent1 crossed with parent2, then the reverse.
     */
    method BreedPair(current: seq<Tess>, d: Draws, g: nat, i: nat) returns (offspring1: Tess, offspring2: Tess)
      requires DrawsInRange(d)
      requires |current| > 0
      ensures offspring1 == Offspring(current, mutationRate, d, g, i, 0)
      ensures offspring2 == Offspring(current, mutationRate, d, g, i, 1)
    {
      var picks := d.parents(g, i, |current|);
      var parent1, parent2 := current[picks.0], current[picks.1];
      offspring1 := Breed(parent1, parent2, d, g, i, 0);
      offspring2 := Breed(parent2, parent1, d, g, i, 1);
    }

    /**
     * The body of one generation of `optimize`: popSize / 2 times, select two parents and
     * append their two offspring, parent1 crossed with parent2 and the reverse.
     */
    method NextGeneration(current: seq<Tess>, d: Draws, g: nat) returns (next: seq<Tess>)
      requires DrawsInRange(d)
      requires popSize >= 2 ==> |current| > 0
      ensures next == Generation(current, popSize, mutationRate, d, g)
    {
      next := [];
      for i := 0 to popSize / 2
        invariant |next| == 2 * i
        invariant BredSoFar(next, current, mutationRate, d, g)
      {
        var offspring1, offspring2 := BreedPair(current, d, g, i);
        BredPairAppend(next, current, mutationRate, d, g, i, offspring1, offspring2);
        next := next + [offspring1, offspring2];
      }
      BredGeneration(next, current, popSize, mutationRate, d, g);
    }

    /**
     * `optimize`: runs the configured number of generations, each replacing the population
     * with 2 * (popSize / 2) offspring bred from selected parents, then emits the fittest
     * candidate's polygons as sets of more than two distinct indices. The argmin over an empty
     * population raises, which happens when popSize < 2 and a generation has run.
     */
    method Optimize(d: Draws) returns (r: Result<seq<set<nat>>, string>)
      requires Valid() && DrawsInRange(d)
      modifies this
      ensures Valid()
      ensures population == Evolve(old(population), popSize, mutationRate, d, generations)
      ensures PopulationFromPool(population, old(population))
      ensures r.Failure? <==> population == []
      ensures r.Success? ==> r.value == Emit(population[d.best(|population|)])
      ensures r.Success? ==> forall k :: 0 <= k < |r.value| ==>
        |r.value[k]| >= 3 && forall x :: x in r.value[k] ==> x < |points|
    {
      var g := 0;
      while g < generations
        invariant g <= generations
        invariant Valid()
        invariant population == Evolve(old(population), popSize, mutationRate, d, g)
      {
        var next := NextGeneration(population, d, g);
        GenerationIndicesBelow(population, popSize, mutationRate, d, g, |points|);
        population := next;
        g := g + 1;
      }
      EvolveFromInitial(old(population), popSize, mutationRate, d, generations);
      if population == [] {
        return Failure("attempt to get argmin of an empty sequence");
      }
      var best := population[d.best(|population|)];
      EmitIndicesBelow(best, |points|);
      return Success(Emit(best));
    }
  }
}
