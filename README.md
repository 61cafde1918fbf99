# Smart rockets: a verified model of the evolutionary core

This project models the core of "The Missile Knows Where It Is", a Rust
"smart rockets" genetic algorithm. A population of rockets is launched from
a start position. Each rocket's genome holds one force vector per tick.
Every tick a rocket:

- tests whether it has reached the target circle (and snaps onto it);
- records its closest approach;
- crashes when it leaves the screen or enters an obstacle grid cell;
- applies the next gene as a force;
- moves while it is neither at the target nor crashed.

When every rocket has finished, each rocket scores a fitness. A mating pool
is built in which rocket `i` appears `floor(100 * f_i / max)` times. The next
generation is bred from parents drawn from that pool: single-point crossover
of their genomes, then a per-gene mutation.

The model has four modules, one per source file plus the configuration:

- `Config` (`config.dfy`) holds the values of the configuration module. That
  module is not part of this model, so its values are abstract constants:
  - `LIFESPAN` and `POP_SIZE` are positive;
  - `MUTATION_RATE` is a probability;
  - `f64` is modelled as `real`, and `f64::MAX` as its exact real value.
- `Genome` (`dna.dfy`, `src/dna.rs`):
  - the class `DNA`, whose methods `New`, `Crossover` and `Mutate` keep the
    source's loops;
  - the specification functions `CrossoverGenes` and `Mutated`, which those
    methods are proved against.
- `Agent` (`rocket.dfy`, `src/rocket.rs`):
  - the class `Rocket`;
  - the value `RocketState`, which holds all fields except the genome;
  - the specification function `Tick`, one call of `update`, which
    `Rocket.Update` is proved to implement field by field. `Tick` is the
    composition of the three phases of `update`: `CheckTermination`,
    `ConsumeGene` and `Integrate`;
  - `Run`, which iterates `Tick`, and the lemmas about it: the step counter,
    monotone flags, a terminal rocket staying still, a fresh rocket finishing
    after LIFESPAN ticks;
  - `Fitness`, the value `calculate_fitness` computes, and its range and
    ordering lemmas.
- `Populations` (`population.dfy`, `src/population.rs`):
  - the class `Population`, with `Update`, `Evaluate`, `SelectParent`,
    `Evolve` and `AllDone`;
  - the specification functions `MaxFitness`, `Copies`, `Pool`,
    `ParentIndex`, `ChildGenes` and `Offspring`, and the lemmas about them:
    pool indices in range, sorted, exact counts, bounded length, non-empty
    after a positive evaluation.

Randomness is passed in as parameters:

- the crossover point;
- the `gen_bool` outcome of every gene, with the replacement force drawn for it;
- the two positions drawn by `choose` for each child (`BreedDraws`).

The obstacle set is a parameter of `Population.Update`. The source's
`Population::update` (src/population.rs:23) calls `rocket.update()` without
it, although `Rocket::update` (src/rocket.rs:62) requires it.

Behaviours of the code worth knowing:

- The step counter advances on every call while it is below LIFESPAN, also
  after the rocket has hit or crashed (src/rocket.rs:93-97).
- After moving, the acceleration is reset to (0, 0), not to the (0, -0.1)
  the rocket starts with (src/rocket.rs:114).
- The velocity "limit" multiplies the velocity by squared speed / 60, so it
  amplifies rather than limits (src/rocket.rs:103-108). It is reproduced as
  written, and `ClampAmplifies` proves the amplification.
- Hitting the target and crashing are not exclusive: the bounds and obstacle
  tests run after the goal snap in the same tick, so both flags can be set
  (src/rocket.rs:64-90). `HitAndCrash` proves it.
- The grid snap truncates toward zero, both in `as i32` and in Rust's `/`
  (src/rocket.rs:85-86). `ToI32` and `SnapToCell` model that explicitly.
- `calculate_fitness` may be called on any rocket; nothing requires the
  rocket to have finished (src/rocket.rs:38-60).

## Model

| member | source | states |
|---|---|---|
| Genome.CrossoverGenes | src/dna.rs:21-34 | the child has exactly LIFESPAN genes: those below the crossover point come from `self`, the rest from the partner, so the last gene is always the partner's |
| Genome.CrossoverAtZero | src/dna.rs:23-31 | with crossover point 0 the child is the partner's first LIFESPAN genes |
| Genome.CrossoverWithItself | src/dna.rs:25-31 | crossing a LIFESPAN-gene genome with itself gives it back at every point |
| Genome.Mutated | src/dna.rs:39-44 | a mutation pass keeps the length and replaces gene i by its drawn force exactly when its draw fires |
| Genome.MutatedWithoutFiring | src/dna.rs:39-44 | when no draw fires the genome is unchanged |
| Genome.MutationDraws | src/dna.rs:39-40 | one `gen_bool` outcome and one replacement force per gene; a draw can fire only at a positive rate and can fail only at a rate below 1 |
| Genome.DNA.FromGenes | src/dna.rs:33 | the struct literal `DNA { genes }`: the new genome holds exactly the given genes |
| Genome.DNA.New | src/dna.rs:11-19 | a fresh genome of exactly LIFESPAN genes, each (0, 0) |
| Genome.DNA.Crossover | src/dna.rs:21-34 | returns a fresh DNA whose genes are `CrossoverGenes` of the two parents; neither parent is modified (no modifies clause); needs the point below LIFESPAN, `self` to hold at least `point` genes and the partner at least LIFESPAN, which is what the loop indexes |
| Genome.DNA.Mutate | src/dna.rs:36-45 | the genes become `Mutated` of the old genes, in place; the length is kept; with rate 0 nothing changes |
| Agent.Initial | src/rocket.rs:21-33 | a new rocket is at START_POS with velocity (0, 0), acceleration (0, -0.1), step 0, fitness 0, both flags false, closest approach f64::MAX |
| Agent.Finished | src/population.rs:83 | the per-rocket test of `all_done`: hit, crashed or at least LIFESPAN steps |
| Agent.SquaredDistance | src/rocket.rs:64-66 | the squared distance is never negative |
| Agent.ToI32 | src/rocket.rs:85-86 | `as i32` truncates toward zero and saturates at the bounds of i32 |
| Agent.SnapToCell | src/rocket.rs:85-86 | `(n / 5) * 5` with truncating division is a multiple of 5 within 5 of `n`, on the side of zero |
| Agent.GridCell | src/rocket.rs:84-90 | both cell coordinates are multiples of 5, and for an on-screen position the cell contains it |
| Agent.OutOfBounds | src/rocket.rs:76-80 | a position left of or above the origin, or beyond the screen width or height, is out of bounds |
| Agent.WithForce | src/rocket.rs:34-37 | the acceleration after `apply_Force`: it gains twice the force in each coordinate |
| Agent.SquaredSpeed | src/rocket.rs:103 | `speed`, the squared length of the velocity, is never negative |
| Agent.ClampVelocity | src/rocket.rs:102-108 | a velocity within the limit is left unchanged |
| Agent.ClampAmplifies | src/rocket.rs:103-108 | above the limit the clamp multiplies the squared speed by more than 60 squared |
| Agent.Tick | src/rocket.rs:62-116 | one `update`: flags only ever set; inside the target radius the rocket hits and snaps onto the target; off-screen or in an obstacle cell, tested on the position after the snap, it crashes, and it crashes only then or if it had crashed before; step advances by one only below LIFESPAN; closest approach never grows and is at most the distance measured before the move; a terminal rocket keeps its velocity and moves only by the snap; a flying rocket moves by its new velocity and clears its acceleration; fitness untouched |
| Agent.CheckTermination | src/rocket.rs:63-90 | the first phase of `update`: goal test and snap, closest approach, bounds and obstacle tests; its effect is stated by `Tick` |
| Agent.ConsumeGene | src/rocket.rs:92-97 | the second phase: below LIFESPAN the next gene is applied and the step advances; its effect is stated by `Tick` |
| Agent.Integrate | src/rocket.rs:98-115 | the last phase: only a rocket that has neither hit nor crashed moves; its effect is stated by `Tick` |
| Agent.Run | src/main.rs:40-42 | repeated `update` calls, one per obstacle field; `RunStep`, `RunMonotone`, `RunTerminalStill` and `RunSnoc` state what it does |
| Agent.HitAndCrash | src/rocket.rs:64-90 | a rocket reaching the target circle whose target cell holds an obstacle ends the tick with both flags set |
| Agent.RunSnoc | src/main.rs:40-42 | one more tick after a run is the run over the extended field sequence, which ties `Run` to a loop of `update` calls |
| Agent.RunStep | src/rocket.rs:93-97 | after n ticks the step counter is min(step + n, LIFESPAN) |
| Agent.RunMonotone | src/rocket.rs:64-90 | over any number of ticks the flags stay set and the closest approach does not grow |
| Agent.RunTerminalStill | src/rocket.rs:99-115 | a rocket that has hit or crashed keeps its velocity and never moves except onto the target |
| Agent.FreshRocketFinishes | src/rocket.rs:93-97 | a new rocket has finished (hit, crashed or used up its genes) after LIFESPAN ticks, whatever the obstacles |
| Agent.Fitness | src/rocket.rs:38-60 | the value `calculate_fitness` computes; `FitnessRange`, `CrashHalvesFitness`, `EarlierHitScoresHigher`, `CloserScoresHigher` and `FitnessIgnoresStoredFitness` state its properties |
| Agent.FitnessRange | src/rocket.rs:38-60 | a hit scores exactly 1000/(step+1), in (0, 1000]; a miss scores in (0, 1] |
| Agent.CrashHalvesFitness | src/rocket.rs:52-56 | a crash halves the score the rocket would otherwise get |
| Agent.EarlierHitScoresHigher | src/rocket.rs:48-51 | of two rockets that hit, the earlier scores strictly higher |
| Agent.CloserScoresHigher | src/rocket.rs:40-46 | of two missing rockets with equal flags and steps, the closer scores strictly higher |
| Agent.FitnessIgnoresStoredFitness | src/rocket.rs:38-60 | the score does not depend on a previously stored score, so computing it again gives the same value |
| Agent.Rocket.constructor | src/rocket.rs:21-33 | the new rocket's state is `Initial()` and it owns the given genome |
| Agent.Rocket.ApplyForce | src/rocket.rs:34-37 | only the acceleration changes, by twice the force |
| Agent.Rocket.CalculateFitness | src/rocket.rs:38-60 | stores `Fitness` of the state in `fitness`, returns it and changes nothing else |
| Agent.Rocket.Update | src/rocket.rs:62-116 | the new state is `Tick` of the old state, with the rocket's genome and the obstacle set |
| Agent.Rocket.CheckTerminationPhase | src/rocket.rs:63-90 | the goal, closest-approach, bounds and obstacle tests give `CheckTermination` of the old state |
| Agent.Rocket.ConsumeGenePhase | src/rocket.rs:92-97 | below LIFESPAN the next gene is applied as a force and the step advances |
| Agent.Rocket.IntegratePhase | src/rocket.rs:98-115 | a rocket neither at the target nor crashed integrates velocity and position and clears its acceleration |
| Populations.RealMax | src/population.rs:33 | `f64::max` on non-NaN values: the larger of the two; `MaxFitnessAppend` and `MaxFitness` use it |
| Populations.MaxFitness | src/population.rs:29-33 | the fold from 0.0 is at least 0, at least every fitness, and is 0 or one of the fitnesses |
| Populations.MaxFitnessAppend | src/population.rs:33 | folding one more fitness takes the larger of the running maximum and it |
| Populations.ToUsize | src/population.rs:43 | `as usize` truncates a non-negative value to its floor |
| Populations.Copies | src/population.rs:38-43 | the number of pool entries for a rocket of fitness f under maximum max; `CopiesRange` states its values |
| Populations.CopiesRange | src/population.rs:38-43 | no copies under a zero maximum; at most 100 up to the maximum, exactly 100 at it, and in general floor(100 f / max) |
| Populations.Pool | src/population.rs:36-45 | the mating pool built from empty for fitnesses fs and their maximum; `PoolIndices`, `PoolSorted`, `PoolCount`, `PoolLength`, `PoolEmptyAtZero` and `PoolNonEmpty` state its properties |
| Populations.Repeat | src/population.rs:44 | `repeat(i).take(n)` is n copies of i |
| Populations.PoolIndices | src/population.rs:37-44 | every pool entry is the index of a rocket |
| Populations.PoolSorted | src/population.rs:37-44 | the pool lists indices in increasing order |
| Populations.RepeatCount | src/population.rs:44 | n copies of i contain i n times and nothing else |
| Populations.PoolCount | src/population.rs:36-45 | index i appears in the pool exactly Copies(f_i, max) times |
| Populations.PoolLength | src/population.rs:37-44 | with every fitness at most the maximum the pool has at most 100 entries per rocket |
| Populations.PoolEmptyAtZero | src/population.rs:38-42 | a zero maximum gives an empty pool |
| Populations.PoolNonEmpty | src/population.rs:36-45 | a positive maximum puts at least 100 entries in the pool |
| Populations.Evaluated | src/population.rs:29-32 | after scoring, each rocket's stored fitness is its `Fitness` and nothing else changed |
| Populations.EvaluatedPositive | src/population.rs:29-32 | every evaluated rocket has a positive fitness |
| Populations.EvaluatedPoolNonEmpty | src/population.rs:27-46 | after `evaluate` of a non-empty population the pool is not empty |
| Populations.PoolRange | src/population.rs:71-76 | the number of positions `choose` draws from: the pool's length, or the rocket count when the pool is empty |
| Populations.ParentIndex | src/population.rs:70-78 | the chosen parent is a valid rocket index, and a pool member when the pool is not empty |
| Populations.ValidDraws | src/population.rs:53-61 | the draws for one child: two `choose` positions within `PoolRange`, a crossover point below LIFESPAN and one mutation draw per gene |
| Populations.ChildGenes | src/population.rs:54-61 | the child has LIFESPAN genes: gene i is the drawn force if its draw fired, otherwise parent A's below the crossover point and parent B's from it |
| Populations.Offspring | src/population.rs:52-63 | the genome bred from the population's genomes with one set of draws has LIFESPAN genes |
| Populations.GenerationFinishes | src/population.rs:80-84 | after LIFESPAN ticks from `Initial()` every genome's run has finished, whatever the obstacle fields |
| Populations.UpdateRun | src/population.rs:21-25 | one `update` of a population whose rockets are at `Run` of a prefix of fields leaves them at `Run` of the prefix extended by the next field |
| Populations.RunGeneration | src/main.rs:36-42 | a new population updated LIFESPAN times, once per obstacle field, is valid and `all_done` holds |
| Populations.Population.constructor | src/population.rs:13-20 | POP_SIZE distinct fresh rockets in the initial state with all-zero genomes, generation 1, empty pool |
| Populations.Population.Update | src/population.rs:21-25 | every rocket's new state is `Tick` of its old state; the population stays valid |
| Populations.Population.Evaluate | src/population.rs:27-46 | every rocket stores its `Fitness` and nothing else of it changes; the pool becomes `Pool` of the fitnesses and their maximum, rebuilt from empty |
| Populations.Population.ScoreAll | src/population.rs:29-33 | each rocket stores its fitness, and the returned maximum is `MaxFitness` of the stored values |
| Populations.Population.ScoreOne | src/population.rs:32 | `calculate_fitness` on one rocket: it stores its `Fitness`, and every other rocket keeps its state |
| Populations.Population.RebuildPool | src/population.rs:36-45 | the pool is `Pool` of the stored fitnesses and the maximum, and its entries index rockets |
| Populations.Population.SelectParent | src/population.rs:70-78 | returns the rocket at `ParentIndex` of the drawn position, always a member of the population |
| Populations.Population.Breed | src/population.rs:53-63 | a fresh rocket with a fresh genome, in the initial state, whose genes are `Offspring` of the draws |
| Populations.Population.BreedNext | src/population.rs:52-64 | one more child joins the brood and the children bred before it stay as they were |
| Populations.Population.BreedAll | src/population.rs:50-64 | POP_SIZE distinct fresh rockets in the initial state, the k-th with genes `Offspring` of the k-th draws |
| Populations.Population.Evolve | src/population.rs:48-68 | the rockets are replaced by POP_SIZE fresh children bred from the old genomes and pool; generation goes up by one; the stale pool is kept and still indexes the rockets |
| Populations.Population.AllDone | src/population.rs:80-84 | holds exactly when every rocket has hit, crashed or reached LIFESPAN steps |

## Left out

- src/main.rs (window, event loop, drawing, the heading angle), plot.py and watch.py are UI and file tooling, with no algorithmic content.
- The configuration module is not part of this model. Its values are abstract, with LIFESPAN and POP_SIZE positive and MUTATION_RATE in [0, 1].
- The random number generator: only the outcomes of `gen_range`, `gen_bool` and `choose` are modelled, as parameters. Their distributions are not.
- The direction drawn in `mutate` and its `cos`/`sin`: the replacement force for each gene is a parameter, so its magnitude FORCE_MAGNITUDE is not stated.
- `f64` arithmetic is exact real arithmetic: no rounding, NaN, infinities or overflow. The amplifying velocity clamp can overflow in the source.
- Agent.RocketState: the closest approach has a non-negative type. It starts at f64::MAX and is only ever assigned a squared distance, so no behaviour is lost.
- Populations.ToUsize: does not saturate at usize::MAX, because the values it is applied to are at most 100 whenever the fitnesses are at most their maximum.
- Populations.Population.Evolve: `generation` is unbounded, so the u32 overflow after 2^32 - 1 generations is not modelled.
- Agent.Rocket.Update: the three phases of `update` are separate methods, called in the source's order. `evaluate` is split into `ScoreAll` (one `ScoreOne` per rocket) and `RebuildPool`, and the breeding loop of `evolve` into `Breed`, `BreedNext` and `BreedAll`. This changes only the structure, not what is computed.
- The obstacle set is a parameter of every tick, as the source's own call sites would need it to be. The caller's ownership of it, and its changes between ticks, are not modelled.
