/** A generation of rockets: stepping them, fitness-proportionate selection
    by replication into a mating pool, and breeding the next generation. */
module Populations {
  import opened Config
  import opened Genome
  import opened Agent

  /** `f64::max` on non-NaN values. */
  function RealMax(a: real, b: real): real
  {
    if a >= b then a else b
  }

  /** The fold of `evaluate`: the largest fitness, starting from 0.0. */
  function MaxFitness(fs: seq<real>): (m: real)
    ensures m >= 0.0
    ensures forall i :: 0 <= i < |fs| ==> fs[i] <= m
    ensures m == 0.0 || m in fs
    decreases |fs|
  {
    if fs == [] then 0.0 else RealMax(MaxFitness(fs[..|fs| - 1]), fs[|fs| - 1])
  }

  lemma MaxFitnessAppend(fs: seq<real>, f: real)
    ensures MaxFitness(fs + [f]) == RealMax(MaxFitness(fs), f)
  {
  }

  /** `x as usize` for a value below the usize range: truncation toward
      zero, with negative values saturating to 0. */
  function ToUsize(x: real): (n: nat)
    ensures x >= 0.0 ==> n as real <= x < n as real + 1.0
  {
    if x < 0.0 then 0 else x.Floor
  }

  /** How many times a rocket with fitness `f` enters the mating pool:
      its fitness normalised by `max`, times 100, truncated. */
  function Copies(f: real, max: real): nat
  {
    var normalized := if max > 0.0 then f / max else 0.0;
    ToUsize(normalized * 100.0)
  }

  /** No copies under a zero maximum; at most 100 for a fitness up to the
      maximum, exactly 100 at it, and in general the floor of 100 f / max. */
  lemma CopiesRange(f: real, max: real)
    ensures max <= 0.0 ==> Copies(f, max) == 0
    ensures max > 0.0 && f <= max ==> Copies(f, max) <= 100
    ensures max > 0.0 && f == max ==> Copies(f, max) == 100
    ensures max > 0.0 && f >= 0.0 ==>
              Copies(f, max) as real * max <= 100.0 * f < (Copies(f, max) as real + 1.0) * max
  {
    if max > 0.0 {
      var x := (f / max) * 100.0;
      var n := Copies(f, max) as real;
      assert x * max == 100.0 * f by {
        assert (f / max) * max == f;
      }
      if f <= max {
        ScaleBack(x - 100.0, max);
      }
      if f >= 0.0 {
        ScaleBack(x - n, max);
        ScaleBack(x - (n + 1.0), max);
      }
    }
  }

  /** Multiplying by a positive factor keeps the sign. */
  lemma ScaleBack(a: real, b: real)
    requires b > 0.0
    ensures a >= 0.0 <==> a * b >= 0.0
    ensures a > 0.0 <==> a * b > 0.0
  {
  }

  function Repeat(i: nat, n: nat): (r: seq<nat>)
    ensures |r| == n && forall k :: 0 <= k < n ==> r[k] == i
    decreases n
  {
    if n == 0 then [] else Repeat(i, n - 1) + [i]
  }

  /** The mating pool `evaluate` builds: for each index in turn, that index
      repeated Copies(fitness, max) times. */
  function Pool(fs: seq<real>, max: real): seq<nat>
    decreases |fs|
  {
    if fs == [] then [] else Pool(fs[..|fs| - 1], max) + Repeat(|fs| - 1, Copies(fs[|fs| - 1], max))
  }

  /** Every pool entry is the index of a rocket. */
  lemma {:induction false} PoolIndices(fs: seq<real>, max: real)
    ensures forall k :: 0 <= k < |Pool(fs, max)| ==> Pool(fs, max)[k] < |fs|
    decreases |fs|
  {
    if fs != [] {
      PoolIndices(fs[..|fs| - 1], max);
    }
  }

  /** The pool lists the indices in increasing order. */
  lemma {:induction false} PoolSorted(fs: seq<real>, max: real)
    ensures forall a, b :: 0 <= a < b < |Pool(fs, max)| ==> Pool(fs, max)[a] <= Pool(fs, max)[b]
    decreases |fs|
  {
    if fs != [] {
      var prefix := fs[..|fs| - 1];
      PoolSorted(prefix, max);
      PoolIndices(prefix, max);
    }
  }

  lemma {:induction false} RepeatCount(i: nat, n: nat, j: nat)
    ensures multiset(Repeat(i, n))[j] == if i == j then n else 0
  {
    if n > 0 {
      RepeatCount(i, n - 1, j);
      assert Repeat(i, n) == Repeat(i, n - 1) + [i];
    }
  }

  /** Index i appears in the pool exactly Copies(fs[i], max) times, so that
      many of the pool's positions select it. */
  lemma {:induction false} PoolCount(fs: seq<real>, max: real, i: nat)
    ensures multiset(Pool(fs, max))[i] == if i < |fs| then Copies(fs[i], max) else 0
    decreases |fs|
  {
    if fs != [] {
      var n := |fs| - 1;
      PoolCount(fs[..n], max, i);
      RepeatCount(n, Copies(fs[n], max), i);
    }
  }

  /** With every fitness in [0, max] the pool holds at most 100 entries per rocket. */
  lemma {:induction false} PoolLength(fs: seq<real>, max: real)
    requires forall i :: 0 <= i < |fs| ==> fs[i] <= max
    ensures |Pool(fs, max)| <= 100 * |fs|
    decreases |fs|
  {
    if fs != [] {
      PoolLength(fs[..|fs| - 1], max);
      CopiesRange(fs[|fs| - 1], max);
    }
  }

  /** A zero maximum gives an empty pool. */
  lemma {:induction false} PoolEmptyAtZero(fs: seq<real>)
    ensures Pool(fs, 0.0) == []
    decreases |fs|
  {
    if fs != [] {
      PoolEmptyAtZero(fs[..|fs| - 1]);
      CopiesRange(fs[|fs| - 1], 0.0);
    }
  }

  /** With a positive maximum the rocket(s) that reach it fill 100 places each,
      so the pool is not empty. */
  lemma PoolNonEmpty(fs: seq<real>)
    requires MaxFitness(fs) > 0.0
    ensures |Pool(fs, MaxFitness(fs))| >= 100
  {
    var max := MaxFitness(fs);
    var i :| 0 <= i < |fs| && fs[i] == max;
    PoolCount(fs, max, i);
    CopiesRange(fs[i], max);
    assert i in multiset(Pool(fs, max));
    assert multiset(Pool(fs, max))[i] <= |multiset(Pool(fs, max))|;
  }

  /** The number of positions `select_parent` chooses from among `n`
      rockets: the pool's, or every rocket's when the pool is empty. */
  function PoolRange(pool: seq<nat>, n: nat): nat
  {
    if pool == [] then n else |pool|
  }

  /** The rocket `select_parent` returns for the drawn position `pick`: a
      pool entry when the pool is not empty, any rocket otherwise. */
  function ParentIndex(pool: seq<nat>, n: nat, pick: nat): (i: nat)
    requires forall k :: 0 <= k < |pool| ==> pool[k] < n
    requires pick < PoolRange(pool, n)
    ensures i < n
    ensures pool != [] ==> i in pool
  {
    if pool == [] then pick else pool[pick]
  }

  /** The random draws for breeding one child: the two `choose` positions,
      the crossover point and the mutation draws. */
  datatype BreedDraws = BreedDraws(pickA: nat, pickB: nat, point: nat, fires: seq<bool>, replacements: seq<Vec2>)

  predicate ValidDraws(d: BreedDraws, pickRange: nat)
  {
    && d.pickA < pickRange && d.pickB < pickRange
    && d.point < LIFESPAN
    && MutationDraws(MUTATION_RATE, LIFESPAN, d.fires, d.replacements)
  }

  /** The genome of a child bred from the given parents with draws `d`. */
  function ChildGenes(parentA: seq<Vec2>, parentB: seq<Vec2>, d: BreedDraws): (genes: seq<Vec2>)
    requires LIFESPAN <= |parentA| && LIFESPAN <= |parentB|
    requires d.point < LIFESPAN && |d.fires| == LIFESPAN && |d.replacements| == LIFESPAN
    ensures |genes| == LIFESPAN
    ensures forall i :: 0 <= i < LIFESPAN ==>
              genes[i] == if d.fires[i] then d.replacements[i] else if i < d.point then parentA[i] else parentB[i]
  {
    Mutated(CrossoverGenes(parentA, parentB, d.point), d.fires, d.replacements)
  }

  ghost function StatesOf(rs: seq<Rocket>): (ss: seq<RocketState>)
    reads rs
    ensures |ss| == |rs| && forall i :: 0 <= i < |rs| ==> ss[i] == rs[i].State()
    decreases |rs|
  {
    if rs == [] then [] else StatesOf(rs[..|rs| - 1]) + [rs[|rs| - 1].State()]
  }

  /** The stored fitness of each state, in order. */
  function FitnessesOf(ss: seq<RocketState>): (fs: seq<real>)
    ensures |fs| == |ss| && forall i :: 0 <= i < |ss| ==> fs[i] == ss[i].fitness
    decreases |ss|
  {
    if ss == [] then [] else FitnessesOf(ss[..|ss| - 1]) + [ss[|ss| - 1].fitness]
  }

  /** Every rocket of a fresh generation has finished after LIFESPAN ticks,
      so `all_done` holds then. */
  lemma GenerationFinishes(genomes: seq<seq<Vec2>>, fields: seq<set<(int, int)>>)
    requires forall i :: 0 <= i < |genomes| ==> LIFESPAN <= |genomes[i]|
    requires LIFESPAN <= |fields|
    ensures forall i :: 0 <= i < |genomes| ==> Finished(Run(Initial(), genomes[i], fields))
  {
    forall i | 0 <= i < |genomes|
      ensures Finished(Run(Initial(), genomes[i], fields))
    {
      FreshRocketFinishes(genomes[i], fields);
    }
  }

  /** One `update` of `p` extends the run of every rocket by one field. */
  method UpdateRun(p: Population, f: set<(int, int)>, ghost genomes: seq<seq<Vec2>>, ghost fields: seq<set<(int, int)>>)
    requires p.Valid() && |genomes| == |p.rockets|
    requires forall i :: 0 <= i < |genomes| ==> p.rockets[i].dna.genes == genomes[i]
    requires forall i :: 0 <= i < |genomes| ==> p.rockets[i].State() == Run(Initial(), genomes[i], fields)
    modifies p.rockets
    ensures p.Valid()
    ensures forall i :: 0 <= i < |genomes| ==> p.rockets[i].State() == Run(Initial(), genomes[i], fields + [f])
  {
    forall i | 0 <= i < |genomes|
      ensures Run(Initial(), genomes[i], fields + [f]) == Tick(Run(Initial(), genomes[i], fields), genomes[i], f)
    {
      RunSnoc(Initial(), genomes[i], fields, f);
    }
    p.Update(f);
  }

  /** A fresh population updated once per obstacle field, LIFESPAN times:
      afterwards `all_done` holds. */
  method RunGeneration(fields: seq<set<(int, int)>>) returns (p: Population)
    requires |fields| == LIFESPAN
    ensures fresh(p) && p.Valid() && p.AllDone()
  {
    p := new Population();
    ghost var rockets := p.rockets;
    ghost var genomes := GenomesOf(rockets);
    for t := 0 to LIFESPAN
      invariant fresh(p) && p.Valid() && p.rockets == rockets
      invariant forall i :: 0 <= i < |rockets| ==> fresh(rockets[i]) && rockets[i].dna.genes == genomes[i]
      invariant forall i :: 0 <= i < |rockets| ==>
                  rockets[i].State() == Run(Initial(), genomes[i], fields[..t])
    {
      assert fields[..t + 1] == fields[..t] + [fields[t]];
      UpdateRun(p, fields[t], genomes, fields[..t]);
    }
    assert fields[..LIFESPAN] == fields;
    GenerationFinishes(genomes, fields);
  }

  /** After `evaluate` (every rocket of a valid population has positive
      fitness) the pool is not empty, so `select_parent` never falls back. */
  lemma EvaluatedPoolNonEmpty(ss: seq<RocketState>)
    requires ss != []
    ensures Pool(FitnessesOf(Evaluated(ss)), MaxFitness(FitnessesOf(Evaluated(ss)))) != []
  {
    var fs := FitnessesOf(Evaluated(ss));
    FitnessRange(ss[0]);
    assert fs[0] > 0.0;
    PoolNonEmpty(fs);
  }

  /** The states after `calculate_fitness` has run on each of `ss`. */
  function Evaluated(ss: seq<RocketState>): (es: seq<RocketState>)
    ensures |es| == |ss|
    ensures forall i :: 0 <= i < |ss| ==> es[i] == ss[i].(fitness := Fitness(ss[i]))
    decreases |ss|
  {
    if ss == [] then []
    else
      var last := ss[|ss| - 1];
      Evaluated(ss[..|ss| - 1]) + [last.(fitness := Fitness(last))]
  }

  /** Evaluation stores a positive fitness in every state. */
  lemma EvaluatedPositive(ss: seq<RocketState>)
    ensures forall i :: 0 <= i < |ss| ==> Evaluated(ss)[i].fitness > 0.0
  {
    forall i | 0 <= i < |ss|
      ensures Evaluated(ss)[i].fitness > 0.0
    {
      FitnessRange(ss[i]);
    }
  }

  /** The genomes of the rockets `rs`, in order. */
  ghost function GenomesOf(rs: seq<Rocket>): (gs: seq<seq<Vec2>>)
    reads rs, set r | r in rs :: r.dna
    ensures |gs| == |rs| && forall i :: 0 <= i < |rs| ==> gs[i] == rs[i].dna.genes
    decreases |rs|
  {
    if rs == [] then [] else GenomesOf(rs[..|rs| - 1]) + [rs[|rs| - 1].dna.genes]
  }

  /** The genome of the child bred with draws `d` from a population whose
      genomes are `genomes` and whose mating pool is `pool`. */
  function Offspring(pool: seq<nat>, genomes: seq<seq<Vec2>>, d: BreedDraws): (genes: seq<Vec2>)
    requires forall k :: 0 <= k < |pool| ==> pool[k] < |genomes|
    requires forall i :: 0 <= i < |genomes| ==> |genomes[i]| == LIFESPAN
    requires ValidDraws(d, PoolRange(pool, |genomes|))
    ensures |genes| == LIFESPAN
  {
    ChildGenes(genomes[ParentIndex(pool, |genomes|, d.pickA)], genomes[ParentIndex(pool, |genomes|, d.pickB)], d)
  }

  class Population {
    var rockets: seq<Rocket>
    var generation: nat
    var matingPool: seq<nat>

    /** The population invariant: POP_SIZE distinct rockets, each with a
        genome of LIFESPAN genes, and a pool whose entries index them. */
    ghost predicate Valid()
      reads this, set i | 0 <= i < |rockets| :: rockets[i].dna
    {
      && |rockets| == POP_SIZE
      && (forall i, j :: 0 <= i < j < |rockets| ==> rockets[i] != rockets[j])
      && (forall i :: 0 <= i < |rockets| ==> |rockets[i].dna.genes| == LIFESPAN)
      && PoolIndexesRockets()
    }

    /** Every pool entry is the index of a rocket. */
    ghost predicate PoolIndexesRockets()
      reads this
    {
      forall k :: 0 <= k < |matingPool| ==> matingPool[k] < |rockets|
    }

    /** `Population::new`. */
    constructor ()
      ensures Valid()
      ensures generation == 1 && matingPool == []
      ensures forall i :: 0 <= i < |rockets| ==>
                fresh(rockets[i]) && rockets[i].State() == Initial() &&
                forall g :: 0 <= g < LIFESPAN ==> rockets[i].dna.genes[g] == (0.0, 0.0)
    {
      var rs: seq<Rocket> := [];
      for k := 0 to POP_SIZE
        invariant |rs| == k
        invariant forall i, j :: 0 <= i < j < k ==> rs[i] != rs[j]
        invariant forall i :: 0 <= i < k ==>
                    fresh(rs[i]) && rs[i].State() == Initial() &&
                    |rs[i].dna.genes| == LIFESPAN &&
                    forall g :: 0 <= g < LIFESPAN ==> rs[i].dna.genes[g] == (0.0, 0.0)
      {
        var dna := DNA.New();
        var r := new Rocket(dna);
        rs := rs + [r];
      }
      rockets := rs;
      generation := 1;
      matingPool := [];
    }

    /** `update`: every rocket takes one step against the obstacle cells. */
    method Update(obstacles: set<(int, int)>)
      requires Valid()
      modifies rockets
      ensures Valid()
      ensures forall i :: 0 <= i < |rockets| ==>
                rockets[i].State() == Tick(old(rockets[i].State()), rockets[i].dna.genes, obstacles)
    {
      for i := 0 to |rockets|
        invariant Valid()
        invariant forall j :: 0 <= j < i ==>
                    rockets[j].State() == Tick(old(rockets[j].State()), rockets[j].dna.genes, obstacles)
        invariant forall j :: i <= j < |rockets| ==> rockets[j].State() == old(rockets[j].State())
      {
        assert forall j :: 0 <= j < |rockets| && j != i ==> rockets[j] != rockets[i];
        rockets[i].Update(obstacles);
      }
    }

    /** `evaluate`: stores every rocket's fitness and rebuilds the mating pool. */
    method Evaluate()
      requires Valid()
      modifies this, rockets
      ensures Valid() && rockets == old(rockets) && generation == old(generation)
      ensures forall i :: 0 <= i < |rockets| ==>
                rockets[i].State() == old(rockets[i].State()).(fitness := Fitness(old(rockets[i].State())))
      ensures matingPool == Pool(old(FitnessesOf(Evaluated(StatesOf(rockets)))),
                                 MaxFitness(old(FitnessesOf(Evaluated(StatesOf(rockets))))))
    {
      ghost var expected := FitnessesOf(Evaluated(StatesOf(rockets)));
      var maxFitness, fs := ScoreAll();
      assert fs == expected;
      RebuildPool(maxFitness, fs);
    }

    /** The first loop of `evaluate`: each rocket stores its fitness, and the
        largest of them (at least 0.0) is returned; `fs` lists the stored values. */
    method ScoreAll() returns (maxFitness: real, ghost fs: seq<real>)
      requires Valid()
      modifies rockets
      ensures Valid()
      ensures |fs| == |rockets|
      ensures forall i :: 0 <= i < |rockets| ==>
                fs[i] == Fitness(old(rockets[i].State())) &&
                rockets[i].State() == old(rockets[i].State()).(fitness := fs[i])
      ensures maxFitness == MaxFitness(fs)
    {
      maxFitness, fs := 0.0, [];
      for i := 0 to |rockets|
        invariant |fs| == i
        invariant forall j :: 0 <= j < i ==>
                    fs[j] == Fitness(old(rockets[j].State())) &&
                    rockets[j].State() == old(rockets[j].State()).(fitness := fs[j])
        invariant forall j :: i <= j < |rockets| ==> rockets[j].State() == old(rockets[j].State())
        invariant maxFitness == MaxFitness(fs)
      {
        var f := ScoreOne(i);
        MaxFitnessAppend(fs, f);
        fs := fs + [f];
        maxFitness := RealMax(maxFitness, f);
      }
    }

    /** `calculate_fitness` on the rocket at position `i`; the others keep their state. */
    method ScoreOne(i: nat) returns (f: real)
      requires Valid() && i < |rockets|
      modifies rockets[i]
      ensures Valid()
      ensures f == Fitness(old(rockets[i].State())) && rockets[i].State() == old(rockets[i].State()).(fitness := f)
      ensures forall j :: 0 <= j < |rockets| && j != i ==> rockets[j].State() == old(rockets[j].State())
    {
      assert forall j :: 0 <= j < |rockets| && j != i ==> rockets[j] != rockets[i];
      f := rockets[i].CalculateFitness();
    }

    /** The second loop of `evaluate`: the pool rebuilt from the stored
        fitnesses `fs`, each normalised by `maxFitness`. */
    method RebuildPool(maxFitness: real, ghost fs: seq<real>)
      requires Valid()
      requires |fs| == |rockets| && forall i :: 0 <= i < |rockets| ==> rockets[i].fitness == fs[i]
      modifies this`matingPool
      ensures Valid()
      ensures matingPool == Pool(fs, maxFitness)
    {
      matingPool := [];
      for i := 0 to |rockets|
        invariant matingPool == Pool(fs[..i], maxFitness)
      {
        var fitness := if maxFitness > 0.0 then rockets[i].fitness / maxFitness else 0.0;
        var n := ToUsize(fitness * 100.0);
        matingPool := matingPool + Repeat(i, n);
        assert fs[..i + 1][..i] == fs[..i];
      }
      assert fs[..|rockets|] == fs;
      PoolIndices(fs, maxFitness);
    }

    /** `select_parent` with the position drawn by `choose` passed in. */
    method SelectParent(pick: nat) returns (parent: Rocket)
      requires PoolIndexesRockets() && pick < PoolRange(matingPool, |rockets|)
      ensures parent in rockets
      ensures parent == rockets[ParentIndex(matingPool, |rockets|, pick)]
    {
      if matingPool == [] {
        return rockets[pick];
      }
      var parentIdx := matingPool[pick];
      parent := rockets[parentIdx];
    }

    /** One pass of the breeding loop of `evolve`: select two parents,
        cross their genomes over, mutate the result and launch a rocket with it.
        Nothing that exists already is changed. */
    method Breed(d: BreedDraws, ghost genomes: seq<seq<Vec2>>) returns (child: Rocket)
      requires PoolIndexesRockets() && ValidDraws(d, PoolRange(matingPool, |rockets|))
      requires |genomes| == |rockets| && forall i :: 0 <= i < |rockets| ==> rockets[i].dna.genes == genomes[i]
      requires forall i :: 0 <= i < |genomes| ==> |genomes[i]| == LIFESPAN
      ensures fresh(child) && fresh(child.dna)
      ensures child.State() == Initial()
      ensures child.dna.genes == Offspring(matingPool, genomes, d)
    {
      var parentA := SelectParent(d.pickA);
      var parentB := SelectParent(d.pickB);
      var childDna := parentA.dna.Crossover(parentB.dna, d.point);
      childDna.Mutate(MUTATION_RATE, d.fires, d.replacements);
      child := new Rocket(childDna);
    }

    /** The children bred so far: distinct newborn rockets, the j-th
        carrying the genome `genes[j]`. */
    ghost predicate Brood(children: seq<Rocket>, genes: seq<seq<Vec2>>)
      reads children, set j | 0 <= j < |children| :: children[j].dna
    {
      && |children| <= |genes|
      && (forall i, j :: 0 <= i < j < |children| ==> children[i] != children[j])
      && (forall j :: 0 <= j < |children| ==> children[j].State() == Initial() && children[j].dna.genes == genes[j])
    }

    /** One turn of the breeding loop: the child bred with the next draws
        joins the brood, whose members are left as they were. */
    method BreedNext(draws: seq<BreedDraws>, ghost pool: seq<nat>, ghost genomes: seq<seq<Vec2>>,
                     children: seq<Rocket>, ghost expected: seq<seq<Vec2>>) returns (child: Rocket)
      requires |children| < |draws| && |children| < |expected|
      requires PoolIndexesRockets() && matingPool == pool && |rockets| == |genomes|
      requires forall i :: 0 <= i < |genomes| ==> |genomes[i]| == LIFESPAN
      requires forall i :: 0 <= i < |rockets| ==> rockets[i].dna.genes == genomes[i]
      requires ValidDraws(draws[|children|], PoolRange(pool, |genomes|))
      requires expected[|children|] == Offspring(pool, genomes, draws[|children|])
      requires Brood(children, expected)
      ensures fresh(child) && fresh(child.dna)
      ensures Brood(children + [child], expected)
      ensures forall i :: 0 <= i < |rockets| ==> rockets[i].dna.genes == genomes[i]
    {
      child := Breed(draws[|children|], genomes);
      assert forall j :: 0 <= j < |children| ==>
               children[j] != child && (children + [child])[j] == children[j] &&
               children[j].State() == old(children[j].State()) && children[j].dna.genes == old(children[j].dna.genes);
    }

    /** The breeding loop of `evolve`: POP_SIZE distinct fresh rockets, the
        k-th bred with `draws[k]` from the population whose genomes are `genomes`. */
    method BreedAll(draws: seq<BreedDraws>, ghost genomes: seq<seq<Vec2>>) returns (newRockets: seq<Rocket>)
      requires Valid()
      requires |draws| == POP_SIZE && forall k {:trigger draws[k]} :: 0 <= k < |draws| ==> ValidDraws(draws[k], PoolRange(matingPool, |genomes|))
      requires |genomes| == |rockets| && forall i :: 0 <= i < |rockets| ==> rockets[i].dna.genes == genomes[i]
      ensures |newRockets| == POP_SIZE
      ensures forall i, j :: 0 <= i < j < POP_SIZE ==> newRockets[i] != newRockets[j]
      ensures forall k :: 0 <= k < POP_SIZE ==> fresh(newRockets[k]) && fresh(newRockets[k].dna)
      ensures forall k :: 0 <= k < POP_SIZE ==> newRockets[k].State() == Initial()
      ensures forall k :: 0 <= k < POP_SIZE ==> newRockets[k].dna.genes == Offspring(matingPool, genomes, draws[k])
    {
      ghost var pool := matingPool;
      assert forall k :: 0 <= k < |pool| ==> pool[k] < |genomes|;
      assert forall i :: 0 <= i < |genomes| ==> |genomes[i]| == LIFESPAN;
      ghost var expected := seq(POP_SIZE, k requires 0 <= k < POP_SIZE => Offspring(pool, genomes, draws[k]));
      newRockets := [];
      for k := 0 to POP_SIZE
        invariant |newRockets| == k
        invariant PoolIndexesRockets() && matingPool == pool && |rockets| == |genomes|
        invariant forall i :: 0 <= i < |rockets| ==> rockets[i].dna.genes == genomes[i]
        invariant forall j :: 0 <= j < k ==> fresh(newRockets[j]) && fresh(newRockets[j].dna)
        invariant Brood(newRockets, expected)
      {
        var child := BreedNext(draws, pool, genomes, newRockets, expected);
        assert forall j :: 0 <= j < k ==> (newRockets + [child])[j] == newRockets[j];
        newRockets := newRockets + [child];
      }
    }

    /** `evolve`: POP_SIZE children bred from selected parents replace the
        rockets, and the generation counter goes up by one. */
    method Evolve(draws: seq<BreedDraws>)
      requires Valid()
      requires |draws| == POP_SIZE && forall k {:trigger draws[k]} :: 0 <= k < |draws| ==> ValidDraws(draws[k], PoolRange(matingPool, |rockets|))
      modifies this
      ensures Valid()
      ensures generation == old(generation) + 1
      // the stale pool is kept; its entries stay in range as the size is unchanged
      ensures matingPool == old(matingPool)
      ensures forall k :: 0 <= k < POP_SIZE ==>
                fresh(rockets[k]) && fresh(rockets[k].dna) && rockets[k].State() == Initial() &&
                rockets[k].dna.genes == Offspring(old(matingPool), old(GenomesOf(rockets)), draws[k])
    {
      ghost var genomes := GenomesOf(rockets);
      var newRockets := BreedAll(draws, genomes);
      rockets := newRockets;
      generation := generation + 1;
    }

    /** `all_done`: every rocket has hit, crashed or used up its genome. */
    predicate AllDone()
      reads this, rockets
      ensures AllDone() <==> forall i :: 0 <= i < |rockets| ==> Finished(rockets[i].State())
    {
      forall r | r in rockets :: r.hitTarget || r.crashed || r.step >= LIFESPAN
    }
  }
}
