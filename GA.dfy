/** `select_best_GA`: a bounded evolutionary search over orderings of the available hospitals whose
    fitness looks only at the first hospital of an ordering. The random draws are oracle inputs. */
module GA {
  import opened Wrappers
  import opened Hospitals
  import opened Permutations
  import opened Revisions

  // ---------- fitness ----------

  /** Fitness is computed without raising: the time is not None and is not -1 (which would divide by zero). */
  predicate FitnessDefined(h: Hospital) {
    h.weightedTime != NoneTime && (h.weightedTime.Minutes? ==> h.weightedTime.value != -1.0)
  }

  /** `1 / (weighted_time + 1)`, or 0 when the record has no `weighted_time`. */
  function Fitness(h: Hospital): (f: real)
    requires FitnessDefined(h)
    ensures h.weightedTime == Unset ==> f == 0.0
    ensures h.weightedTime.Minutes? && h.weightedTime.value >= 0.0 ==> 0.0 < f <= 1.0
  {
    match h.weightedTime
    case Unset => 0.0
    case Minutes(wt) => 1.0 / (wt + 1.0)
  }

  /** Fitness strictly decreases as the travel time grows. */
  lemma FitnessDecreasing(h1: Hospital, h2: Hospital)
    requires h1.weightedTime.Minutes? && h2.weightedTime.Minutes?
    requires 0.0 <= h1.weightedTime.value < h2.weightedTime.value
    ensures Fitness(h1) > Fitness(h2)
  {
    var a, b := h1.weightedTime.value + 1.0, h2.weightedTime.value + 1.0;
    assert 1.0 / a - 1.0 / b == (b - a) / (a * b);
  }

  /** `[i for i, h in enumerate(hospitals) if h.get("available", True)]`, over the first `n` records. */
  function AvailableUpTo(hospitals: seq<Hospital>, n: nat): (r: seq<nat>)
    requires n <= |hospitals|
    ensures forall i :: i in r <==> 0 <= i < n && IsAvailable(hospitals[i])
    ensures forall k :: 0 <= k < |r| ==> r[k] < n
    ensures forall j, k :: 0 <= j < k < |r| ==> r[j] < r[k]
  {
    if n == 0 then [] else AvailableUpTo(hospitals, n - 1) + (if IsAvailable(hospitals[n - 1]) then [n - 1] else [])
  }

  function AvailableIndices(hospitals: seq<Hospital>): (r: seq<nat>)
    ensures Distinct(r)
    ensures forall i :: i in r <==> 0 <= i < |hospitals| && IsAvailable(hospitals[i])
  {
    AvailableUpTo(hospitals, |hospitals|)
  }

  /** The optimizer does not raise on fitness: every available record has a usable time. */
  predicate GAReady(hospitals: seq<Hospital>) {
    forall i :: 0 <= i < |hospitals| && IsAvailable(hospitals[i]) ==> FitnessDefined(hospitals[i])
  }

  /** An ordering whose first index names a record with a fitness. */
  predicate ValidChromosome(hospitals: seq<Hospital>, ch: seq<nat>) {
    |ch| > 0 && ch[0] < |hospitals| && FitnessDefined(hospitals[ch[0]])
  }

  predicate ValidPopulation(hospitals: seq<Hospital>, population: seq<seq<nat>>) {
    forall ch :: ch in population ==> ValidChromosome(hospitals, ch)
  }

  /** `fitness(ch)`: only the first hospital of the ordering matters. */
  function ChromosomeFitness(hospitals: seq<Hospital>, ch: seq<nat>): real
    requires ValidChromosome(hospitals, ch)
  {
    Fitness(hospitals[ch[0]])
  }

  lemma PermutationIsValid(hospitals: seq<Hospital>, ch: seq<nat>)
    requires GAReady(hospitals) && AvailableIndices(hospitals) != []
    requires IsPermutationOf(ch, AvailableIndices(hospitals))
    ensures ValidChromosome(hospitals, ch)
    ensures IsAvailable(hospitals[ch[0]])
  {
    var avail := AvailableIndices(hospitals);
    assert |ch| == |multiset(ch)| == |multiset(avail)| == |avail|;
    assert ch[0] in multiset(ch);
  }

  // ---------- sort and max ----------

  /** `a` has a fitness at least that of `b`. */
  predicate AtLeastAsFit(hospitals: seq<Hospital>, a: seq<nat>, b: seq<nat>) {
    && ValidChromosome(hospitals, a) && ValidChromosome(hospitals, b)
    && ChromosomeFitness(hospitals, a) >= ChromosomeFitness(hospitals, b)
  }

  /** Fittest first. */
  predicate SortedByFitness(hospitals: seq<Hospital>, population: seq<seq<nat>>) {
    forall i, j :: 0 <= i < j < |population| ==> AtLeastAsFit(hospitals, population[i], population[j])
  }

  lemma SortedTail(hospitals: seq<Hospital>, s: seq<seq<nat>>)
    requires s != [] && SortedByFitness(hospitals, s)
    ensures SortedByFitness(hospitals, s[1..])
  {
    forall i, j | 0 <= i < j < |s[1..]| ensures AtLeastAsFit(hospitals, s[1..][i], s[1..][j]) {
      assert s[1..][i] == s[i + 1] && s[1..][j] == s[j + 1];
    }
  }

  lemma SortedCons(hospitals: seq<Hospital>, x: seq<nat>, s: seq<seq<nat>>)
    requires SortedByFitness(hospitals, s)
    requires forall y :: y in s ==> AtLeastAsFit(hospitals, x, y)
    ensures SortedByFitness(hospitals, [x] + s)
  {
    var r := [x] + s;
    forall i, j | 0 <= i < j < |r| ensures AtLeastAsFit(hospitals, r[i], r[j]) {
      assert r[j] == s[j - 1] && s[j - 1] in s;
      if i > 0 { assert r[i] == s[i - 1]; }
    }
  }

  /** Everything `Insert` puts behind `head` is at most as fit as `head`. */
  lemma InsertedBelowHead(hospitals: seq<Hospital>, ch: seq<nat>, sorted: seq<seq<nat>>, rest: seq<seq<nat>>)
    requires sorted != [] && SortedByFitness(hospitals, sorted) && ValidPopulation(hospitals, sorted)
    requires AtLeastAsFit(hospitals, sorted[0], ch)
    requires multiset(rest) == multiset(sorted[1..]) + multiset{ch}
    ensures forall y :: y in rest ==> AtLeastAsFit(hospitals, sorted[0], y)
  {
    forall y | y in rest ensures AtLeastAsFit(hospitals, sorted[0], y) {
      assert y in multiset(rest);
      if y != ch {
        var m :| 0 <= m < |sorted[1..]| && sorted[1..][m] == y;
        assert sorted[m + 1] == y;
      }
    }
  }

  /** Places `ch` before the first element it is at least as fit as, so equal keys keep their order. */
  function Insert(hospitals: seq<Hospital>, ch: seq<nat>, sorted: seq<seq<nat>>): (r: seq<seq<nat>>)
    requires ValidChromosome(hospitals, ch) && ValidPopulation(hospitals, sorted)
    requires SortedByFitness(hospitals, sorted)
    ensures multiset(r) == multiset(sorted) + multiset{ch}
    ensures ValidPopulation(hospitals, r) && SortedByFitness(hospitals, r)
  {
    if sorted == [] || ChromosomeFitness(hospitals, ch) >= ChromosomeFitness(hospitals, sorted[0]) then
      assert forall y :: y in sorted ==> AtLeastAsFit(hospitals, ch, y) by {
        forall y | y in sorted ensures AtLeastAsFit(hospitals, ch, y) {
          var m :| 0 <= m < |sorted| && sorted[m] == y;
          if m > 0 { assert AtLeastAsFit(hospitals, sorted[0], sorted[m]); }
        }
      }
      SortedCons(hospitals, ch, sorted);
      [ch] + sorted
    else
      assert sorted == [sorted[0]] + sorted[1..];
      SortedTail(hospitals, sorted);
      var rest := Insert(hospitals, ch, sorted[1..]);
      InsertedBelowHead(hospitals, ch, sorted, rest);
      SortedCons(hospitals, sorted[0], rest);
      [sorted[0]] + rest
  }

  /** `population.sort(key=fitness, reverse=True)`: a stable sort, fittest first. */
  function SortByFitness(hospitals: seq<Hospital>, population: seq<seq<nat>>): (r: seq<seq<nat>>)
    requires ValidPopulation(hospitals, population)
    ensures multiset(r) == multiset(population)
    ensures ValidPopulation(hospitals, r) && SortedByFitness(hospitals, r)
  {
    if population == [] then []
    else
      assert population == [population[0]] + population[1..];
      Insert(hospitals, population[0], SortByFitness(hospitals, population[1..]))
  }

  /** `max(population, key=fitness)` over the first `n` chromosomes: the first one of greatest fitness. */
  function FittestUpTo(hospitals: seq<Hospital>, population: seq<seq<nat>>, n: nat): (k: nat)
    requires ValidPopulation(hospitals, population)
    requires 0 < n <= |population|
    ensures k < n
    ensures forall j :: 0 <= j < n ==>
      ChromosomeFitness(hospitals, population[j]) <= ChromosomeFitness(hospitals, population[k])
    ensures forall j :: 0 <= j < k ==>
      ChromosomeFitness(hospitals, population[j]) < ChromosomeFitness(hospitals, population[k])
  {
    if n == 1 then 0
    else
      var k := FittestUpTo(hospitals, population, n - 1);
      assert population[n - 1] in population && population[k] in population;
      if ChromosomeFitness(hospitals, population[n - 1]) > ChromosomeFitness(hospitals, population[k]) then n - 1 else k
  }

  function Fittest(hospitals: seq<Hospital>, population: seq<seq<nat>>): (k: nat)
    requires ValidPopulation(hospitals, population) && population != []
    ensures k < |population|
  {
    FittestUpTo(hospitals, population, |population|)
  }

  /** The greatest fitness in a population. */
  function MaxFitness(hospitals: seq<Hospital>, population: seq<seq<nat>>): real
    requires ValidPopulation(hospitals, population) && population != []
  {
    assert population[Fittest(hospitals, population)] in population;
    ChromosomeFitness(hospitals, population[Fittest(hospitals, population)])
  }

  /** MaxFitness bounds every member and is reached by one. */
  lemma MaxFitnessIsMax(hospitals: seq<Hospital>, population: seq<seq<nat>>)
    requires ValidPopulation(hospitals, population) && population != []
    ensures forall ch :: ch in population ==> ChromosomeFitness(hospitals, ch) <= MaxFitness(hospitals, population)
    ensures exists ch :: ch in population && ChromosomeFitness(hospitals, ch) == MaxFitness(hospitals, population)
  {
    var k := Fittest(hospitals, population);
    assert population[k] in population;
    forall ch | ch in population ensures ChromosomeFitness(hospitals, ch) <= MaxFitness(hospitals, population) {
      var j :| 0 <= j < |population| && population[j] == ch;
    }
  }

  /** Populations with the same members have the same greatest fitness. */
  lemma MaxFitnessOfPermutation(hospitals: seq<Hospital>, p: seq<seq<nat>>, q: seq<seq<nat>>)
    requires ValidPopulation(hospitals, p) && p != []
    requires multiset(p) == multiset(q)
    ensures ValidPopulation(hospitals, q) && q != []
    ensures MaxFitness(hospitals, p) == MaxFitness(hospitals, q)
  {
    assert forall ch :: ch in q <==> ch in multiset(q);
    assert forall ch :: ch in p <==> ch in multiset(p);
    assert |q| == |multiset(q)| == |multiset(p)| == |p|;
    MaxFitnessIsMax(hospitals, p);
    MaxFitnessIsMax(hospitals, q);
  }

  /** The first chromosome of a sorted population has the greatest fitness. */
  lemma SortedHeadIsFittest(hospitals: seq<Hospital>, s: seq<seq<nat>>)
    requires ValidPopulation(hospitals, s) && s != [] && SortedByFitness(hospitals, s)
    ensures ChromosomeFitness(hospitals, s[0]) == MaxFitness(hospitals, s)
  {
    MaxFitnessIsMax(hospitals, s);
    var ch :| ch in s && ChromosomeFitness(hospitals, ch) == MaxFitness(hospitals, s);
    var m :| 0 <= m < |s| && s[m] == ch;
    if m > 0 { assert AtLeastAsFit(hospitals, s[0], s[m]); }
    assert s[0] in s;
  }

  // ---------- one generation ----------

  /** Each chromosome orders exactly the available indices. Its first index is then an available record
      with a fitness (PermutationIsValid); that consequence is part of the predicate so contracts can use it. */
  predicate IsPopulation(hospitals: seq<Hospital>, population: seq<seq<nat>>) {
    forall ch :: ch in population ==>
      IsPermutationOf(ch, AvailableIndices(hospitals)) && ValidChromosome(hospitals, ch)
  }

  /** The random draws for one child: the two parents' positions in the parent pool, the crossover cut,
      the mutation coin and the two positions a mutation swaps. */
  datatype Draw = Draw(parent1: nat, parent2: nat, cut: int, coin: real, swapI: nat, swapJ: nat)

  /** The upper end of the cut's range; `randint(1, hi)` raises ValueError when `hi < 1`. */
  function CutHigh(rev: Revision, n: nat): int {
    match rev
    case AsWritten => n - 1
    case Intended => if n - 1 < 1 then 1 else n - 1
  }

  /** Parents are drawn from the first `max(2, popSize // 2)` chromosomes of the sorted population. */
  function ParentPool(popSize: nat): nat {
    if popSize / 2 < 2 then 2 else popSize / 2
  }

  /** What `random.sample`, `random.randint` and `random.random` may return for one child of orderings of length `n`. */
  predicate ValidDraw(d: Draw, popSize: nat, n: nat, rev: Revision) {
    && d.parent1 < ParentPool(popSize) && d.parent2 < ParentPool(popSize) && d.parent1 != d.parent2
    && (1 <= CutHigh(rev, n) ==> 1 <= d.cut <= CutHigh(rev, n))
    && 0.0 <= d.coin < 1.0
    && (n >= 2 ==> d.swapI < n && d.swapJ < n && d.swapI != d.swapJ)
  }

  /** Lines 63-67: cut, crossover and possibly a swap mutation. The child orders the available indices. */
  method Breed(hospitals: seq<Hospital>, avail: seq<nat>, p1: seq<nat>, p2: seq<nat>, d: Draw,
               mutationRate: real, rev: Revision)
    returns (r: Outcome<seq<nat>>)
    requires GAReady(hospitals) && avail == AvailableIndices(hospitals) && avail != []
    requires IsPermutationOf(p1, avail) && IsPermutationOf(p2, avail)
    requires 1 <= CutHigh(rev, |avail|) ==> 1 <= d.cut <= CutHigh(rev, |avail|)
    requires |avail| >= 2 ==> d.swapI < |avail| && d.swapJ < |avail|
    ensures r.ValueError? <==> CutHigh(rev, |avail|) < 1
    ensures r.Ok? ==> IsPermutationOf(r.value, avail) && ValidChromosome(hospitals, r.value)
  {
    var n := |avail|;
    if CutHigh(rev, n) < 1 {
      return ValueError;
    }
    assert |p1| == |multiset(p1)| == n;
    var child := Crossover(p1, p2, d.cut);
    CrossoverPreservesPermutation(p1, p2, d.cut, avail);
    assert |child| == |multiset(child)| == n;
    if d.coin < mutationRate && |child| >= 2 {
      child := Swap(child, d.swapI, d.swapJ);
    }
    PermutationIsValid(hospitals, child);
    r := Ok(child);
  }

  /** Keeping the fittest chromosome of the sorted population keeps the greatest fitness. */
  lemma ElitismKeepsMax(hospitals: seq<Hospital>, population: seq<seq<nat>>, sorted: seq<seq<nat>>, nextGen: seq<seq<nat>>)
    requires ValidPopulation(hospitals, population) && population != []
    requires sorted == SortByFitness(hospitals, population)
    requires ValidPopulation(hospitals, nextGen) && nextGen != [] && nextGen[0] == sorted[0]
    ensures MaxFitness(hospitals, nextGen) >= MaxFitness(hospitals, population)
  {
    MaxFitnessOfPermutation(hospitals, population, sorted);
    SortedHeadIsFittest(hospitals, sorted);
    MaxFitnessIsMax(hospitals, nextGen);
    assert nextGen[0] in nextGen;
  }

  lemma SortedIsPopulation(hospitals: seq<Hospital>, population: seq<seq<nat>>)
    requires IsPopulation(hospitals, population)
    ensures |SortByFitness(hospitals, population)| == |population|
    ensures IsPopulation(hospitals, SortByFitness(hospitals, population))
  {
    var sorted := SortByFitness(hospitals, population);
    assert |sorted| == |multiset(sorted)| == |multiset(population)| == |population|;
    forall ch | ch in sorted ensures ch in population {
      assert ch in multiset(sorted);
    }
  }

  lemma AppendToPopulation(hospitals: seq<Hospital>, population: seq<seq<nat>>, ch: seq<nat>)
    requires IsPopulation(hospitals, population)
    requires IsPermutationOf(ch, AvailableIndices(hospitals)) && ValidChromosome(hospitals, ch)
    ensures IsPopulation(hospitals, population + [ch])
  {
  }

  /** The number of fittest chromosomes kept unchanged: `population[:2]`. */
  function Elite(popSize: nat): nat {
    if popSize < 2 then popSize else 2
  }

  /** Lines 60-68: keep the two fittest of the sorted population, then breed children from its top part
      until the population is full again. Raises exactly when a child is needed and the cut range is empty. */
  method Refill(hospitals: seq<Hospital>, avail: seq<nat>, sorted: seq<seq<nat>>, popSize: nat,
                mutationRate: real, rev: Revision, draws: seq<Draw>)
    returns (r: Outcome<seq<seq<nat>>>)
    requires GAReady(hospitals) && avail == AvailableIndices(hospitals) && avail != []
    requires |sorted| == popSize && IsPopulation(hospitals, sorted)
    requires |draws| >= popSize - 2
    requires forall k :: 0 <= k < |draws| ==> ValidDraw(draws[k], popSize, |avail|, rev)
    ensures r.ValueError? <==> popSize > 2 && CutHigh(rev, |avail|) < 1
    ensures r.Ok? ==> |r.value| == popSize && IsPopulation(hospitals, r.value)
    ensures r.Ok? ==> r.value[..Elite(popSize)] == sorted[..Elite(popSize)]
  {
    var n := |avail|;
    var nextGen := sorted[..Elite(popSize)];
    var k := 0;
    while |nextGen| < popSize
      invariant |nextGen| == Elite(popSize) + k <= popSize
      invariant nextGen[..Elite(popSize)] == sorted[..Elite(popSize)]
      invariant IsPopulation(hospitals, nextGen)
      invariant k > 0 ==> CutHigh(rev, n) >= 1
      decreases popSize - |nextGen|
    {
      var d := draws[k];
      var p1, p2 := sorted[d.parent1], sorted[d.parent2];
      assert p1 in sorted && p2 in sorted;
      var child := Breed(hospitals, avail, p1, p2, d, mutationRate, rev);
      if child.ValueError? {
        return ValueError;
      }
      AppendToPopulation(hospitals, nextGen, child.value);
      nextGen := nextGen + [child.value];
      k := k + 1;
    }
    r := Ok(nextGen);
  }

  /** One pass of the generation loop: sort fittest first, then refill. The population keeps its size and
      stays orderings of the available indices, the two fittest survive, and the greatest fitness never drops. */
  method NextGeneration(hospitals: seq<Hospital>, avail: seq<nat>, population: seq<seq<nat>>, popSize: nat,
                        mutationRate: real, rev: Revision, draws: seq<Draw>)
    returns (r: Outcome<seq<seq<nat>>>)
    requires GAReady(hospitals) && avail == AvailableIndices(hospitals) && avail != []
    requires |population| == popSize && IsPopulation(hospitals, population)
    requires |draws| >= popSize - 2
    requires forall k :: 0 <= k < |draws| ==> ValidDraw(draws[k], popSize, |avail|, rev)
    ensures r.ValueError? <==> popSize > 2 && CutHigh(rev, |avail|) < 1
    ensures r.Ok? ==> |r.value| == popSize && IsPopulation(hospitals, r.value)
    ensures r.Ok? && popSize >= 2 ==> r.value[..2] == SortByFitness(hospitals, population)[..2]
    ensures r.Ok? && popSize > 0 ==> MaxFitness(hospitals, r.value) >= MaxFitness(hospitals, population)
  {
    var sorted := SortByFitness(hospitals, population);
    SortedIsPopulation(hospitals, population);
    r := Refill(hospitals, avail, sorted, popSize, mutationRate, rev, draws);
    if r.Ok? && popSize > 0 {
      assert r.value[0] == r.value[..Elite(popSize)][0];
      ElitismKeepsMax(hospitals, population, sorted, r.value);
    }
  }

  // ---------- the whole search ----------

  /** All random draws of one call: the initial orderings (`random.sample(available_indices, n)` per
      chromosome) and, per generation, the draws for each child. */
  datatype GADraws = GADraws(initial: seq<seq<nat>>, generations: seq<seq<Draw>>)

  /** The draws are ones the random module can produce (only checked when some record is available,
      since otherwise nothing is drawn). */
  predicate ValidGADraws(hospitals: seq<Hospital>, popSize: nat, gens: nat, rev: Revision, draws: GADraws) {
    AvailableIndices(hospitals) != [] ==>
      && |draws.initial| == popSize && IsPopulation(hospitals, draws.initial)
      && |draws.generations| >= gens
      && forall g :: 0 <= g < gens ==>
           && |draws.generations[g]| >= popSize - 2
           && forall k :: 0 <= k < |draws.generations[g]| ==>
                ValidDraw(draws.generations[g][k], popSize, |AvailableIndices(hospitals)|, rev)
  }

  /** When `select_best_GA` raises ValueError: with some record available, either the population is empty
      (`max` of an empty list) or a child is bred while the cut range `randint(1, n - 1)` is empty. */
  predicate GARaises(hospitals: seq<Hospital>, popSize: nat, gens: nat, rev: Revision) {
    var n := |AvailableIndices(hospitals)|;
    n > 0 && (popSize == 0 || (gens > 0 && popSize > 2 && CutHigh(rev, n) < 1))
  }

  /** `select_best_GA`: None when no record is available; otherwise the first hospital of the fittest
      final ordering, which is available and at least as fit as the fittest initial ordering. */
  method SelectBestGA(hospitals: seq<Hospital>, popSize: nat, gens: nat, mutationRate: real, rev: Revision,
                      draws: GADraws)
    returns (r: Outcome<Option<Hospital>>)
    requires GAReady(hospitals) && ValidGADraws(hospitals, popSize, gens, rev, draws)
    ensures r.ValueError? <==> GARaises(hospitals, popSize, gens, rev)
    ensures r == Ok(None) <==> forall i :: 0 <= i < |hospitals| ==> !IsAvailable(hospitals[i])
    ensures r.Ok? && r.value.Some? ==>
      exists i :: 0 <= i < |hospitals| && IsAvailable(hospitals[i]) && hospitals[i] == r.value.value
    ensures r.Ok? && r.value.Some? && popSize > 0 && AvailableIndices(hospitals) != [] ==>
      Fitness(r.value.value) >= MaxFitness(hospitals, draws.initial)
  {
    var avail := AvailableIndices(hospitals);
    if avail == [] {
      return Ok(None);
    }
    assert avail[0] in avail;
    var population := draws.initial;
    for g := 0 to gens
      invariant |population| == popSize && IsPopulation(hospitals, population)
      invariant popSize > 0 ==> MaxFitness(hospitals, population) >= MaxFitness(hospitals, draws.initial)
      invariant g > 0 && popSize > 2 ==> CutHigh(rev, |avail|) >= 1
    {
      var next := NextGeneration(hospitals, avail, population, popSize, mutationRate, rev, draws.generations[g]);
      if next.ValueError? {
        return ValueError;
      }
      population := next.value;
    }
    if population == [] {
      return ValueError;
    }
    var best := population[Fittest(hospitals, population)];
    assert best in population;
    PermutationIsValid(hospitals, best);
    r := Ok(Some(hospitals[best[0]]));
  }
}
