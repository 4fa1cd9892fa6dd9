/** The bookkeeping of the biased random-key genetic algorithm: parameter
    validation, the slot layout of one generation, the generation loop,
    the best-of queries and the elite exchange between populations.  The
    random number generator and the decoder are oracles: their draws and
    fitness values arrive as parameters.  Fitness values are the
    decoder's truncated costs, so they are integers here, and a fitness
    entry is the pair (fitness, chromosome index) that the source sorts. */
module Brkga {
  import opened Wrappers
  import opened Pairs

  type Key = real

  /** The `range_error`s the constructors and operations throw. */
  datatype Error =
    | ChromosomeSizeZero
    | PopulationSizeZero
    | EliteSizeZero
    | EliteLargerThanPopulation
    | MutantsLargerThanPopulation
    | EliteAndMutantsLargerThanPopulation
    | NoPopulations
    | ZeroGenerations
    | ExchangeCountOutOfRange

  datatype Population = Population(chromosomes: seq<seq<Key>>, fitness: seq<Pair>)

  /** p chromosomes of n keys, and one fitness entry per chromosome whose
      index names a chromosome. */
  predicate Shaped(pop: Population, n: nat, p: nat) {
    && |pop.chromosomes| == p
    && (forall i :: 0 <= i < p ==> |pop.chromosomes[i]| == n)
    && |pop.fitness| == p
    && (forall i :: 0 <= i < p ==> 0 <= pop.fitness[i].1 < p)
  }

  // ---------------------------------------------------------------------
  // Constructors (brkga.h lines 524-528, 720-744)
  // ---------------------------------------------------------------------

  /** `Population(n, p)`: p all-zero chromosomes of n keys and p default
      fitness entries, unless p or (then) n is zero. */
  function NewPopulation(n: nat, p: nat): (r: Result<Population, Error>)
    ensures p == 0 ==> r == Failure(PopulationSizeZero)
    ensures p != 0 && n == 0 ==> r == Failure(ChromosomeSizeZero)
    ensures r.Success? <==> p != 0 && n != 0
    ensures r.Success? ==> (Shaped(r.value, n, p)
      && (forall i, j :: 0 <= i < p && 0 <= j < n ==> r.value.chromosomes[i][j] == 0.0)
      && (forall i :: 0 <= i < p ==> r.value.fitness[i] == (0, 0)))
  {
    if p == 0 then Failure(PopulationSizeZero)
    else if n == 0 then Failure(ChromosomeSizeZero)
    else Success(Population(seq(p, _ => seq(n, _ => 0.0)), seq(p, _ => (0, 0))))
  }

  /** The validated parameters: chromosome size n, population size p,
      elite size pe, mutant count pm and the number K of populations. */
  datatype Config = Config(n: nat, p: nat, pe: nat, pm: nat, k: nat)

  predicate ValidConfig(c: Config) {
    c.n > 0 && c.p > 0 && c.pe > 0 && c.pe + c.pm <= c.p && c.k > 0
  }

  /** The `unsigned(fraction * p)` conversion of the elite and mutant
      fractions, which truncates a non-negative product. */
  function SlotCount(fraction: real, p: nat): (count: nat)
    requires fraction >= 0.0
    ensures count as real <= fraction * p as real < count as real + 1.0
  {
    (fraction * p as real).Floor
  }

  /** The `BRKGA` constructor's checks, in the order the source makes
      them; the first that fails names the error. */
  function NewBrkga(n: nat, p: nat, eliteFraction: real, mutantFraction: real, k: nat)
    : (r: Result<Config, Error>)
    requires eliteFraction >= 0.0 && mutantFraction >= 0.0
    ensures r.Success? <==> ValidConfig(Config(n, p, SlotCount(eliteFraction, p), SlotCount(mutantFraction, p), k))
    ensures r.Success? ==> r.value == Config(n, p, SlotCount(eliteFraction, p), SlotCount(mutantFraction, p), k)
    ensures n == 0 ==> r == Failure(ChromosomeSizeZero)
    ensures n > 0 && p == 0 ==> r == Failure(PopulationSizeZero)
    ensures n > 0 && p > 0 && SlotCount(eliteFraction, p) == 0 ==> r == Failure(EliteSizeZero)
    ensures r == Failure(NoPopulations) <==>
      k == 0 && ValidConfig(Config(n, p, SlotCount(eliteFraction, p), SlotCount(mutantFraction, p), 1))
  {
    var pe := SlotCount(eliteFraction, p);
    var pm := SlotCount(mutantFraction, p);
    if n == 0 then Failure(ChromosomeSizeZero)
    else if p == 0 then Failure(PopulationSizeZero)
    else if pe == 0 then Failure(EliteSizeZero)
    else if pe > p then Failure(EliteLargerThanPopulation)
    else if pm > p then Failure(MutantsLargerThanPopulation)
    else if pe + pm > p then Failure(EliteAndMutantsLargerThanPopulation)
    else if k == 0 then Failure(NoPopulations)
    else Success(Config(n, p, pe, pm, k))
  }

  /** `getPo`: the number of offspring slots; with the elite and mutant
      slots it fills the population exactly. */
  function Offspring(c: Config): (po: nat)
    requires ValidConfig(c)
    ensures c.pe + po + c.pm == c.p
  {
    c.p - c.pe - c.pm
  }

  // ---------------------------------------------------------------------
  // One generation (brkga.h lines 882-933)
  // ---------------------------------------------------------------------

  /** The random draws one generation consumes, slot by slot: for each
      offspring slot its elite parent rank, its non-elite parent rank
      counted from pe, and per gene whether the elite parent's key is
      inherited (`rand() < rhoe`); for each mutant slot its fresh keys. */
  datatype Draws = Draws(parents: seq<(nat, nat)>, inherit: seq<seq<bool>>, mutants: seq<seq<Key>>)

  /** What the generator can hand out: `randInt(pe - 1)` is at most
      pe - 1 and `randInt(p - pe - 1)` at most p - pe - 1. */
  predicate DrawsFit(c: Config, d: Draws)
    requires ValidConfig(c)
  {
    && |d.parents| == Offspring(c) && |d.inherit| == Offspring(c) && |d.mutants| == c.pm
    && (forall s :: 0 <= s < Offspring(c) ==> d.parents[s].0 < c.pe && d.parents[s].1 < c.p - c.pe)
    && (forall s :: 0 <= s < Offspring(c) ==> |d.inherit[s]| == c.n)
    && (forall s :: 0 <= s < c.pm ==> |d.mutants[s]| == c.n)
  }

  /** The rank in `curr` of the parent gene j of offspring slot s is
      drawn from. */
  function SourceRank(c: Config, d: Draws, s: nat, j: nat): (rank: nat)
    requires ValidConfig(c) && DrawsFit(c, d) && s < Offspring(c) && j < c.n
    ensures rank < c.p
    ensures rank < c.pe <==> d.inherit[s][j]
  {
    if d.inherit[s][j] then d.parents[s].0 else c.pe + d.parents[s].1
  }

  /** The chromosome layout `evolution` produces: the elite copied in
      rank order, then the offspring gene by gene from their parents,
      then the mutants. */
  predicate Layout(c: Config, curr: Population, d: Draws, rows: seq<seq<Key>>)
    requires ValidConfig(c) && Shaped(curr, c.n, c.p) && DrawsFit(c, d)
  {
    && |rows| == c.p
    && (forall i :: 0 <= i < c.pe ==> rows[i] == curr.chromosomes[curr.fitness[i].1])
    && (forall i :: c.pe <= i < c.p - c.pm ==> |rows[i]| == c.n)
    && (forall i, j :: c.pe <= i < c.p - c.pm && 0 <= j < c.n ==>
          rows[i][j] == curr.chromosomes[curr.fitness[SourceRank(c, d, i - c.pe, j)].1][j])
    && (forall i :: c.p - c.pm <= i < c.p ==> rows[i] == d.mutants[i - (c.p - c.pm)])
  }

  /** The inner loop over the genes of one offspring. */
  method OffspringRow(c: Config, curr: Population, d: Draws, s: nat) returns (row: seq<Key>)
    requires ValidConfig(c) && Shaped(curr, c.n, c.p) && DrawsFit(c, d) && s < Offspring(c)
    ensures |row| == c.n
    ensures forall j :: 0 <= j < c.n ==>
      row[j] == curr.chromosomes[curr.fitness[SourceRank(c, d, s, j)].1][j]
  {
    var eliteParent := d.parents[s].0;
    var noneliteParent := c.pe + d.parents[s].1;
    row := [];
    for j := 0 to c.n
      invariant |row| == j
      invariant forall g :: 0 <= g < j ==>
        row[g] == curr.chromosomes[curr.fitness[SourceRank(c, d, s, g)].1][g]
    {
      var sourceParent := if d.inherit[s][j] then eliteParent else noneliteParent;
      row := row + [curr.chromosomes[curr.fitness[sourceParent].1][j]];
    }
  }

  /** The three slot loops of `evolution`. */
  method Rows(c: Config, curr: Population, d: Draws) returns (rows: seq<seq<Key>>)
    requires ValidConfig(c) && Shaped(curr, c.n, c.p) && DrawsFit(c, d)
    ensures Layout(c, curr, d, rows)
  {
    rows := [];
    var i := 0;
    while i < c.pe
      invariant i <= c.pe && |rows| == i
      invariant forall r :: 0 <= r < i ==> rows[r] == curr.chromosomes[curr.fitness[r].1]
    {
      rows := rows + [curr.chromosomes[curr.fitness[i].1]];
      i := i + 1;
    }
    while i < c.p - c.pm
      invariant c.pe <= i <= c.p - c.pm && |rows| == i
      invariant forall r :: 0 <= r < c.pe ==> rows[r] == curr.chromosomes[curr.fitness[r].1]
      invariant forall r :: c.pe <= r < i ==> |rows[r]| == c.n
      invariant forall r, j :: c.pe <= r < i && 0 <= j < c.n ==>
        rows[r][j] == curr.chromosomes[curr.fitness[SourceRank(c, d, r - c.pe, j)].1][j]
    {
      var row := OffspringRow(c, curr, d, i - c.pe);
      rows := rows + [row];
      i := i + 1;
    }
    while i < c.p
      invariant c.p - c.pm <= i <= c.p && |rows| == i
      invariant forall r :: 0 <= r < c.pe ==> rows[r] == curr.chromosomes[curr.fitness[r].1]
      invariant forall r :: c.pe <= r < c.p - c.pm ==> |rows[r]| == c.n
      invariant forall r, j :: c.pe <= r < c.p - c.pm && 0 <= j < c.n ==>
        rows[r][j] == curr.chromosomes[curr.fitness[SourceRank(c, d, r - c.pe, j)].1][j]
      invariant forall r :: c.p - c.pm <= r < i ==> rows[r] == d.mutants[r - (c.p - c.pm)]
    {
      rows := rows + [d.mutants[i - (c.p - c.pm)]];
      i := i + 1;
    }
  }

  /** The fitness entries before sorting: the elite keep their fitness,
      every other slot is decoded; each entry carries its slot. */
  method Entries(c: Config, curr: Population, rows: seq<seq<Key>>, decode: seq<Key> -> int)
    returns (entries: seq<Pair>)
    requires ValidConfig(c) && Shaped(curr, c.n, c.p) && |rows| == c.p
    ensures |entries| == c.p && Seconds(entries) == Range(0, c.p)
    ensures forall i :: 0 <= i < c.pe ==> entries[i] == (curr.fitness[i].0, i)
    ensures forall i :: c.pe <= i < c.p ==> entries[i] == (decode(rows[i]), i)
  {
    entries := [];
    for i := 0 to c.p
      invariant |entries| == i
      invariant forall r :: 0 <= r < i && r < c.pe ==> entries[r] == (curr.fitness[r].0, r)
      invariant forall r :: c.pe <= r < i ==> entries[r] == (decode(rows[r]), r)
    {
      var f := if i < c.pe then curr.fitness[i].0 else decode(rows[i]);
      entries := entries + [(f, i)];
    }
    assert Seconds(entries) == Range(0, c.p);
  }

  /** `evolution(curr, next)`: the next population's chromosomes follow
      the slot layout, its fitness entries are the elite's kept values
      and the decoded values of every other slot, sorted ascending, and
      its best fitness is no worse than the current one. */
  method Evolution(c: Config, curr: Population, d: Draws, decode: seq<Key> -> int)
    returns (next: Population)
    requires ValidConfig(c) && Shaped(curr, c.n, c.p) && DrawsFit(c, d)
    ensures Shaped(next, c.n, c.p) && Layout(c, curr, d, next.chromosomes)
    ensures Sorted(next.fitness) && IsPermutationOf(Seconds(next.fitness), 0, c.p)
    ensures forall i :: 0 <= i < c.pe ==> (curr.fitness[i].0, i) in multiset(next.fitness)
    ensures forall i :: c.pe <= i < c.p ==> (decode(next.chromosomes[i]), i) in multiset(next.fitness)
    ensures next.fitness[0].0 <= curr.fitness[0].0
  {
    var rows := Rows(c, curr, d);
    LayoutShape(c, curr, d, rows);
    var fitness := Rank(c, curr, rows, decode);
    next := Population(rows, fitness);
  }

  /** Every row of the layout has n genes. */
  lemma LayoutShape(c: Config, curr: Population, d: Draws, rows: seq<seq<Key>>)
    requires ValidConfig(c) && Shaped(curr, c.n, c.p) && DrawsFit(c, d)
    requires Layout(c, curr, d, rows)
    ensures |rows| == c.p && forall i :: 0 <= i < c.p ==> |rows[i]| == c.n
  {
    forall i | 0 <= i < c.p
      ensures |rows[i]| == c.n
    {
      if i < c.pe {
        assert rows[i] == curr.chromosomes[curr.fitness[i].1];
      } else if i >= c.p - c.pm {
        assert rows[i] == d.mutants[i - (c.p - c.pm)];
      }
    }
  }

  /** The fitness half of `evolution`: the entries of the elite and the
      decoded slots, sorted ascending. */
  method Rank(c: Config, curr: Population, rows: seq<seq<Key>>, decode: seq<Key> -> int)
    returns (fitness: seq<Pair>)
    requires ValidConfig(c) && Shaped(curr, c.n, c.p) && |rows| == c.p
    ensures |fitness| == c.p && forall i :: 0 <= i < c.p ==> 0 <= fitness[i].1 < c.p
    ensures Sorted(fitness) && IsPermutationOf(Seconds(fitness), 0, c.p)
    ensures forall i :: 0 <= i < c.pe ==> (curr.fitness[i].0, i) in multiset(fitness)
    ensures forall i :: c.pe <= i < c.p ==> (decode(rows[i]), i) in multiset(fitness)
    ensures fitness[0].0 <= curr.fitness[0].0
  {
    var entries := Entries(c, curr, rows, decode);
    fitness := Sort(entries);
    SortSorted(entries);
    EntriesKept(entries, fitness);
    Elitism(fitness, (curr.fitness[0].0, 0));
    SortedIndices(entries, fitness, c.p);
  }

  /** Every entry survives the sort. */
  lemma EntriesKept(entries: seq<Pair>, fitness: seq<Pair>)
    requires multiset(fitness) == multiset(entries)
    ensures forall i :: 0 <= i < |entries| ==> entries[i] in multiset(fitness)
  {
    forall i | 0 <= i < |entries|
      ensures entries[i] in multiset(fitness)
    {
      assert entries[i] in multiset(entries);
    }
  }

  /** After the sort the chromosome indices are still 0..p-1. */
  lemma SortedIndices(entries: seq<Pair>, fitness: seq<Pair>, p: nat)
    requires Seconds(entries) == Range(0, p)
    requires multiset(Seconds(fitness)) == multiset(Seconds(entries))
    ensures IsPermutationOf(Seconds(fitness), 0, p)
    ensures forall i :: 0 <= i < |fitness| ==> 0 <= fitness[i].1 < p
  {
    forall i | 0 <= i < |fitness|
      ensures 0 <= fitness[i].1 < p
    {
      assert Seconds(fitness)[i] in multiset(Range(0, p));
      InRange(fitness[i].1, 0, p);
    }
  }

  /** The head of a sorted list is no worse than any member. */
  lemma Elitism(fitness: seq<Pair>, kept: Pair)
    requires Sorted(fitness) && kept in multiset(fitness)
    ensures |fitness| > 0 && fitness[0].0 <= kept.0
  {
    var k :| 0 <= k < |fitness| && fitness[k] == kept;
    if k > 0 {
      assert LessEq(fitness[0], fitness[k]);
    }
  }

  // ---------------------------------------------------------------------
  // The generation loop (brkga.h lines 784-795)
  // ---------------------------------------------------------------------

  /** Population j after g generations, when generation t turns it into
      `step(t, j, ...)`; `step` stands for `evolution` with the draws the
      generator hands out at that point. */
  ghost function Generations(step: (nat, nat, Population) -> Population, pop: Population, j: nat, g: nat)
    : Population
    decreases g
  {
    if g == 0 then pop else step(g - 1, j, Generations(step, pop, j, g - 1))
  }

  /** `evolve(generations)`: refused for zero generations; otherwise each
      generation evolves every population into its `previous` buffer and
      swaps the two, so `current` holds the newest generation and
      `previous` the one before. */
  method Evolve(current: seq<Population>, previous: seq<Population>, generations: nat,
                step: (nat, nat, Population) -> Population)
    returns (r: Result<(seq<Population>, seq<Population>), Error>)
    requires |previous| == |current|
    ensures r.Failure? <==> generations == 0
    ensures r.Failure? ==> r.error == ZeroGenerations
    ensures r.Success? ==> |r.value.0| == |current| && |r.value.1| == |current|
    ensures r.Success? ==> forall j :: 0 <= j < |current| ==>
      && r.value.0[j] == Generations(step, current[j], j, generations)
      && r.value.1[j] == Generations(step, current[j], j, generations - 1)
  {
    if generations == 0 {
      return Failure(ZeroGenerations);
    }
    var cur := current;
    var prev := previous;
    for g := 0 to generations
      invariant |cur| == |current| && |prev| == |current|
      invariant forall j :: 0 <= j < |current| ==> cur[j] == Generations(step, current[j], j, g)
      invariant g > 0 ==> forall j :: 0 <= j < |current| ==> prev[j] == Generations(step, current[j], j, g - 1)
    {
      cur, prev := EvolveAll(cur, prev, g, step);
    }
    r := Success((cur, prev));
  }

  /** One generation: every population in turn is evolved and swapped. */
  method EvolveAll(current: seq<Population>, previous: seq<Population>, g: nat,
                   step: (nat, nat, Population) -> Population)
    returns (cur: seq<Population>, prev: seq<Population>)
    requires |previous| == |current|
    ensures |cur| == |current| && prev == current
    ensures forall j :: 0 <= j < |current| ==> cur[j] == step(g, j, current[j])
  {
    cur := current;
    prev := previous;
    for j := 0 to |current|
      invariant |cur| == |current| && |prev| == |current|
      invariant forall i :: 0 <= i < j ==> cur[i] == step(g, i, current[i]) && prev[i] == current[i]
      invariant forall i :: j <= i < |current| ==> cur[i] == current[i]
    {
      prev := prev[j := step(g, j, cur[j])];
      var swap := cur[j];
      cur := cur[j := prev[j]];
      prev := prev[j := swap];
    }
  }

  // ---------------------------------------------------------------------
  // Best-of queries (brkga.h lines 761-778)
  // ---------------------------------------------------------------------

  /** The best fitness of each population: the head of its sorted list. */
  function Tops(pops: seq<Population>): (tops: seq<int>)
    requires forall k :: 0 <= k < |pops| ==> |pops[k].fitness| > 0
    ensures |tops| == |pops|
    ensures forall k :: 0 <= k < |pops| ==> tops[k] == pops[k].fitness[0].0
  {
    seq(|pops|, k requires 0 <= k < |pops| => pops[k].fitness[0].0)
  }

  /** `getBestFitness`: the least head fitness over all populations. */
  method GetBestFitness(pops: seq<Population>) returns (best: int)
    requires |pops| > 0 && forall k :: 0 <= k < |pops| ==> |pops[k].fitness| > 0
    ensures best in Tops(pops)
    ensures forall k :: 0 <= k < |pops| ==> best <= pops[k].fitness[0].0
  {
    best := pops[0].fitness[0].0;
    for i := 1 to |pops|
      invariant best in Tops(pops)[..i]
      invariant forall k :: 0 <= k < i ==> best <= pops[k].fitness[0].0
    {
      if pops[i].fitness[0].0 < best {
        best := pops[i].fitness[0].0;
      }
      assert Tops(pops)[..i + 1] == Tops(pops)[..i] + [Tops(pops)[i]];
    }
    assert Tops(pops)[..|pops|] == Tops(pops);
  }

  /** `getBestChromosome`: the top chromosome of the first population
      whose head fitness is the least. */
  method GetBestChromosome(pops: seq<Population>) returns (chromosome: seq<Key>, bestK: nat)
    requires |pops| > 0
    requires forall k :: 0 <= k < |pops| ==> |pops[k].fitness| > 0 && 0 <= pops[k].fitness[0].1 < |pops[k].chromosomes|
    ensures bestK < |pops|
    ensures chromosome == pops[bestK].chromosomes[pops[bestK].fitness[0].1]
    ensures forall k :: 0 <= k < |pops| ==> pops[bestK].fitness[0].0 <= pops[k].fitness[0].0
    ensures forall k :: 0 <= k < bestK ==> pops[bestK].fitness[0].0 < pops[k].fitness[0].0
  {
    var best := 0;
    for i := 1 to |pops|
      invariant best < i
      invariant forall k :: 0 <= k < i ==> pops[best].fitness[0].0 <= pops[k].fitness[0].0
      invariant forall k :: 0 <= k < best ==> pops[best].fitness[0].0 < pops[k].fitness[0].0
    {
      if pops[i].fitness[0].0 < pops[best].fitness[0].0 {
        best := i;
      }
    }
    bestK := best;
    chromosome := pops[best].chromosomes[pops[best].fitness[0].1];
  }

  /** The two queries agree: the best chromosome's fitness is the best
      fitness. */
  lemma BestAgree(pops: seq<Population>, best: int, bestK: nat)
    requires |pops| > 0 && forall k :: 0 <= k < |pops| ==> |pops[k].fitness| > 0
    requires best in Tops(pops) && forall k :: 0 <= k < |pops| ==> best <= pops[k].fitness[0].0
    requires bestK < |pops| && forall k :: 0 <= k < |pops| ==> pops[bestK].fitness[0].0 <= pops[k].fitness[0].0
    ensures best == pops[bestK].fitness[0].0
  {
    var k :| 0 <= k < |pops| && Tops(pops)[k] == best;
  }

  // ---------------------------------------------------------------------
  // Elite exchange (brkga.h lines 797-813)
  // ---------------------------------------------------------------------

  /** The range of the source's `unsigned` counters. */
  const Unsigned: int := 0x1_0000_0000

  /** `exchangeElite(M)` as written: refused when M is 0 or at least p;
      otherwise population i receives the M best of every other
      population into the slots `dest = p - 1, p - 2, ...`, an unsigned
      counter that wraps below 0.  With K - 1 copies of M chromosomes
      exceeding p, a destination wraps to a slot far outside the
      population. */
  method ExchangeTargetsAsWritten(p: nat, k: nat, m: nat, i: nat) returns (r: Result<seq<int>, Error>)
    requires i < k && p < Unsigned
    ensures r.Failure? <==> m == 0 || m >= p
    ensures r.Failure? ==> r.error == ExchangeCountOutOfRange
    ensures r.Success? ==> |r.value| == (k - 1) * m
    ensures r.Success? ==> forall t :: 0 <= t < |r.value| ==> r.value[t] == (p - 1 - t) % Unsigned
    ensures r.Success? && (k - 1) * m > p ==> r.value[p] == Unsigned - 1 && r.value[p] >= p
  {
    if m == 0 || m >= p {
      return Failure(ExchangeCountOutOfRange);
    }
    var dests: seq<int> := [];
    for j := 0 to k
      invariant |dests| == (if i < j then j - 1 else j) * m
      invariant forall t :: 0 <= t < |dests| ==> dests[t] == (p - 1 - t) % Unsigned
    {
      if j == i {
        continue;
      }
      dests := CopyRun(dests, p, m);
      MulStep(if i < j then j - 1 else j, m);
    }
    r := Success(dests);
    if (k - 1) * m > p {
      assert r.value[p] == (-1) % Unsigned;
    }
  }

  /** The inner loop over the M best of one other population. */
  method CopyRun(dests: seq<int>, p: nat, m: nat) returns (r: seq<int>)
    requires forall t :: 0 <= t < |dests| ==> dests[t] == (p - 1 - t) % Unsigned
    ensures |r| == |dests| + m
    ensures forall t :: 0 <= t < |r| ==> r[t] == (p - 1 - t) % Unsigned
  {
    r := dests;
    var dest := (p - 1 - |dests|) % Unsigned;
    for q := 0 to m
      invariant |r| == |dests| + q
      invariant dest == (p - 1 - |r|) % Unsigned
      invariant forall t :: 0 <= t < |r| ==> r[t] == (p - 1 - t) % Unsigned
    {
      r := r + [dest];
      dest := (dest - 1) % Unsigned;
    }
  }

  lemma MulStep(x: nat, m: nat)
    ensures (x + 1) * m == x * m + m
  {
  }

  /** The exchange with the guard it needs: refused also when the K - 1
      incoming runs of M chromosomes do not fit in the population, so
      every destination is a slot of the population, the destinations
      are distinct, and they are exactly the (K - 1) * M worst slots. */
  method ExchangeTargets(p: nat, k: nat, m: nat, i: nat) returns (r: Result<seq<int>, Error>)
    requires i < k && p < Unsigned
    ensures r.Failure? <==> m == 0 || m >= p || (k - 1) * m > p
    ensures r.Success? ==> |r.value| == (k - 1) * m
    ensures r.Success? ==> forall t :: 0 <= t < |r.value| ==> 0 <= r.value[t] < p && r.value[t] == p - 1 - t
    ensures r.Success? ==> forall t, u :: 0 <= t < u < |r.value| ==> r.value[t] > r.value[u]
  {
    if m == 0 || m >= p || (k - 1) * m > p {
      return Failure(ExchangeCountOutOfRange);
    }
    r := ExchangeTargetsAsWritten(p, k, m, i);
    forall t | 0 <= t < |r.value|
      ensures r.value[t] == p - 1 - t
    {
      assert 0 <= p - 1 - t < Unsigned;
    }
  }
}
