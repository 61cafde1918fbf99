/** One rocket: its physics step, its termination flags and its fitness. */
module Agent {
  import opened Config
  import opened Genome

  /** The speed limit the velocity clamp compares against. */
  const MAX_VELOCITY: real := 60.0

  const I32_MIN: int := -0x8000_0000
  const I32_MAX: int := 0x7fff_ffff

  /** The value of every field of a rocket except its genome. */
  datatype RocketState = RocketState(
    minDistance: NonNegReal,
    position: Vec2,
    velocity: Vec2,
    acceleration: Vec2,
    fitness: real,
    hitTarget: bool,
    crashed: bool,
    step: nat)

  /** A rocket as `Rocket::new` creates it. */
  function Initial(): (s: RocketState)
    ensures s.position == START_POS && s.velocity == (0.0, 0.0) && s.acceleration == (0.0, -0.1)
    ensures s.step == 0 && s.fitness == 0.0 && !s.hitTarget && !s.crashed
    ensures s.minDistance == F64_MAX && s.minDistance > 0.0
  {
    RocketState(F64_MAX, START_POS, (0.0, 0.0), (0.0, -0.1), 0.0, false, false, 0)
  }

  /** The per-rocket test of `all_done`. */
  predicate Finished(s: RocketState)
  {
    s.hitTarget || s.crashed || s.step >= LIFESPAN
  }

  function Min(a: int, b: int): int
  {
    if a <= b then a else b
  }

  function SquaredDistance(p: Vec2, q: Vec2): (d: real)
    ensures d >= 0.0
  {
    var dx, dy := p.0 - q.0, p.1 - q.1;
    assert dx * dx >= 0.0 && dy * dy >= 0.0;
    dx * dx + dy * dy
  }

  /** `speed` in the velocity limit: the squared length of the velocity. */
  function SquaredSpeed(v: Vec2): (r: real)
    ensures r >= 0.0
  {
    assert v.0 * v.0 >= 0.0 && v.1 * v.1 >= 0.0;
    v.0 * v.0 + v.1 * v.1
  }

  /** `x as i32`: truncation toward zero, saturating at the bounds of i32. */
  function ToI32(x: real): (n: int)
    ensures I32_MIN <= n <= I32_MAX
    ensures 0.0 <= x <= I32_MAX as real ==> n as real <= x < n as real + 1.0
    ensures I32_MIN as real <= x <= 0.0 ==> n as real - 1.0 < x <= n as real
    ensures x > I32_MAX as real ==> n == I32_MAX
    ensures x < I32_MIN as real ==> n == I32_MIN
  {
    var t := if x >= 0.0 then x.Floor else -((-x).Floor);
    if t < I32_MIN then I32_MIN else if t > I32_MAX then I32_MAX else t
  }

  /** `(n / 5) * 5` with Rust's division, which truncates toward zero. */
  function SnapToCell(n: int): (c: int)
    ensures c % 5 == 0
    ensures n >= 0 ==> 0 <= c <= n < c + 5
    ensures n <= 0 ==> c - 5 < n <= c <= 0
  {
    if n >= 0 then (n / 5) * 5 else -(((-n) / 5) * 5)
  }

  /** The 5-unit grid cell the obstacle test looks up for a position. */
  function GridCell(p: Vec2): (cell: (int, int))
    ensures cell.0 % 5 == 0 && cell.1 % 5 == 0
    // for a position on the screen (non-negative and within i32) the cell holds it
    ensures 0.0 <= p.0 <= I32_MAX as real ==> cell.0 as real <= p.0 < cell.0 as real + 5.0
    ensures 0.0 <= p.1 <= I32_MAX as real ==> cell.1 as real <= p.1 < cell.1 as real + 5.0
  {
    (SnapToCell(ToI32(p.0)), SnapToCell(ToI32(p.1)))
  }

  predicate OutOfBounds(p: Vec2)
  {
    p.0 < 0.0 || p.1 < 0.0 || p.0 > SCREEN_WIDTH || p.1 > SCREEN_HEIGHT
  }

  /** `apply_Force`: the gene's force, doubled, added to the acceleration. */
  function WithForce(acceleration: Vec2, force: Vec2): Vec2
  {
    (acceleration.0 + force.0 * 2.0, acceleration.1 + force.1 * 2.0)
  }

  /** The velocity "limit" as written: when the squared speed exceeds
      MAX_VELOCITY squared, the velocity is multiplied by
      squared speed / MAX_VELOCITY. */
  function ClampVelocity(v: Vec2): (r: Vec2)
    ensures SquaredSpeed(v) <= MAX_VELOCITY * MAX_VELOCITY ==> r == v
  {
    var speed := SquaredSpeed(v);
    if speed > MAX_VELOCITY * MAX_VELOCITY then
      var ratio := speed / MAX_VELOCITY;
      (v.0 * ratio, v.1 * ratio)
    else v
  }

  /** The clamp never brings the speed down to the limit: above the limit it
      multiplies the squared speed by more than MAX_VELOCITY squared. */
  lemma ClampAmplifies(v: Vec2)
    requires SquaredSpeed(v) > MAX_VELOCITY * MAX_VELOCITY
    ensures SquaredSpeed(ClampVelocity(v)) > MAX_VELOCITY * MAX_VELOCITY * SquaredSpeed(v)
  {
    var speed := SquaredSpeed(v);
    var ratio := speed / MAX_VELOCITY;
    assert ratio > MAX_VELOCITY;
    assert SquaredSpeed(ClampVelocity(v)) == ratio * ratio * speed;
    assert ratio * ratio > MAX_VELOCITY * MAX_VELOCITY;
  }

  /** One call of `Rocket::update` on a rocket in state `s` with genome `genes`. */
  function Tick(s: RocketState, genes: seq<Vec2>, obstacles: set<(int, int)>): (r: RocketState)
    requires s.step < LIFESPAN ==> s.step < |genes|
    // the flags are only ever set
    ensures s.hitTarget ==> r.hitTarget
    ensures s.crashed ==> r.crashed
    // reaching the target circle sets the flag and snaps onto the target
    ensures SquaredDistance(s.position, TARGET_POS) < TARGET_RADIUS * TARGET_RADIUS ==>
              r.hitTarget && r.position == TARGET_POS
    ensures r.hitTarget ==> s.hitTarget || SquaredDistance(s.position, TARGET_POS) < TARGET_RADIUS * TARGET_RADIUS
    // leaving the screen or entering an obstacle cell crashes the rocket
    ensures (!(SquaredDistance(s.position, TARGET_POS) < TARGET_RADIUS * TARGET_RADIUS) &&
             (OutOfBounds(s.position) || GridCell(s.position) in obstacles)) ==> r.crashed
    // the bounds and obstacle tests see the position after the goal snap
    ensures (OutOfBounds(CheckTermination(s, obstacles).position) ||
             GridCell(CheckTermination(s, obstacles).position) in obstacles) ==> r.crashed
    ensures r.crashed ==> s.crashed || OutOfBounds(CheckTermination(s, obstacles).position) ||
                          GridCell(CheckTermination(s, obstacles).position) in obstacles
    // one gene is consumed per tick until LIFESPAN, also after termination
    ensures r.step == if s.step < LIFESPAN then s.step + 1 else s.step
    ensures s.step <= LIFESPAN ==> r.step <= LIFESPAN
    // the closest approach is tracked with the distance measured before the move
    ensures r.minDistance <= s.minDistance
    ensures r.minDistance <= SquaredDistance(s.position, TARGET_POS)
    ensures r.minDistance == s.minDistance || r.minDistance == SquaredDistance(s.position, TARGET_POS)
    // a terminal rocket keeps its velocity and moves only by the goal snap
    ensures r.hitTarget || r.crashed ==>
              r.velocity == s.velocity && (r.position == s.position || r.position == TARGET_POS)
    // a flying rocket moves by its new velocity and its acceleration is cleared
    ensures !r.hitTarget && !r.crashed ==>
              r.position == Add(s.position, r.velocity) && r.acceleration == (0.0, 0.0)
    ensures r.fitness == s.fitness
  {
    Integrate(ConsumeGene(CheckTermination(s, obstacles), genes))
  }

  /** The first phase of `update`: the goal test with its snap, the closest
      approach, the screen bounds and the obstacle cell. */
  function CheckTermination(s: RocketState, obstacles: set<(int, int)>): RocketState
  {
    var distance := SquaredDistance(s.position, TARGET_POS);
    var reached := distance < TARGET_RADIUS * TARGET_RADIUS;
    var position := if reached then TARGET_POS else s.position;
    s.(minDistance := if distance < s.minDistance then distance else s.minDistance,
       position := position,
       hitTarget := s.hitTarget || reached,
       crashed := s.crashed || OutOfBounds(position) || GridCell(position) in obstacles)
  }

  /** The second phase: while genes remain, the next one is applied as a force. */
  function ConsumeGene(s: RocketState, genes: seq<Vec2>): RocketState
    requires s.step < LIFESPAN ==> s.step < |genes|
  {
    if s.step < LIFESPAN then s.(acceleration := WithForce(s.acceleration, genes[s.step]), step := s.step + 1)
    else s
  }

  /** The last phase: a rocket that has neither hit nor crashed moves. */
  function Integrate(s: RocketState): RocketState
  {
    if !s.hitTarget && !s.crashed then
      var velocity := ClampVelocity(Add(s.velocity, s.acceleration));
      s.(velocity := velocity, position := Add(s.position, velocity), acceleration := (0.0, 0.0))
    else
      s
  }

  /** A rocket in state `s` ticked once per obstacle field in `fields`
      (the field may change between ticks). */
  function Run(s: RocketState, genes: seq<Vec2>, fields: seq<set<(int, int)>>): RocketState
    requires LIFESPAN <= |genes|
    decreases |fields|
  {
    if fields == [] then s else Run(Tick(s, genes, fields[0]), genes, fields[1..])
  }

  /** Hitting and crashing are not exclusive: a rocket that reaches the
      target circle, whose cell holds an obstacle, gets both flags. */
  lemma HitAndCrash(s: RocketState, genes: seq<Vec2>, obstacles: set<(int, int)>)
    requires s.step < LIFESPAN ==> s.step < |genes|
    requires SquaredDistance(s.position, TARGET_POS) < TARGET_RADIUS * TARGET_RADIUS
    requires GridCell(TARGET_POS) in obstacles
    ensures Tick(s, genes, obstacles).hitTarget && Tick(s, genes, obstacles).crashed
  {
  }

  /** One more tick at the end of a run: what a loop calling `update`
      once per obstacle field computes. */
  lemma {:induction false} RunSnoc(s: RocketState, genes: seq<Vec2>, fields: seq<set<(int, int)>>, f: set<(int, int)>)
    requires LIFESPAN <= |genes|
    ensures Run(s, genes, fields + [f]) == Tick(Run(s, genes, fields), genes, f)
    decreases |fields|
  {
    if fields == [] {
      assert fields + [f] == [f];
      assert [f][1..] == [];
    } else {
      assert (fields + [f])[0] == fields[0];
      assert (fields + [f])[1..] == fields[1..] + [f];
      RunSnoc(Tick(s, genes, fields[0]), genes, fields[1..], f);
    }
  }

  /** The step counter advances once per tick and stops at LIFESPAN. */
  lemma {:induction false} RunStep(s: RocketState, genes: seq<Vec2>, fields: seq<set<(int, int)>>)
    requires LIFESPAN <= |genes| && s.step <= LIFESPAN
    ensures Run(s, genes, fields).step == Min(s.step + |fields|, LIFESPAN)
    decreases |fields|
  {
    if fields != [] {
      RunStep(Tick(s, genes, fields[0]), genes, fields[1..]);
    }
  }

  /** Over any number of ticks the flags stay set and the closest approach
      does not grow. */
  lemma {:induction false} RunMonotone(s: RocketState, genes: seq<Vec2>, fields: seq<set<(int, int)>>)
    requires LIFESPAN <= |genes|
    ensures s.hitTarget ==> Run(s, genes, fields).hitTarget
    ensures s.crashed ==> Run(s, genes, fields).crashed
    ensures Run(s, genes, fields).minDistance <= s.minDistance
    decreases |fields|
  {
    if fields != [] {
      RunMonotone(Tick(s, genes, fields[0]), genes, fields[1..]);
    }
  }

  /** A rocket that has hit the target or crashed never moves again except
      onto the target, and its velocity stays as it was. */
  lemma {:induction false} RunTerminalStill(s: RocketState, genes: seq<Vec2>, fields: seq<set<(int, int)>>)
    requires LIFESPAN <= |genes|
    requires s.hitTarget || s.crashed
    ensures Run(s, genes, fields).velocity == s.velocity
    ensures Run(s, genes, fields).position == s.position || Run(s, genes, fields).position == TARGET_POS
    decreases |fields|
  {
    if fields != [] {
      var t := Tick(s, genes, fields[0]);
      RunTerminalStill(t, genes, fields[1..]);
    }
  }

  /** A fresh rocket has finished after LIFESPAN ticks, whatever happens on the way. */
  lemma FreshRocketFinishes(genes: seq<Vec2>, fields: seq<set<(int, int)>>)
    requires LIFESPAN <= |genes| && LIFESPAN <= |fields|
    ensures Finished(Run(Initial(), genes, fields))
  {
    RunStep(Initial(), genes, fields);
  }

  /** `calculate_fitness` on a rocket in state `s`: 1000/(step+1) after a
      hit, otherwise the closeness factor times the time factor, halved
      after a crash. */
  function Fitness(s: RocketState): real
  {
    var base := 1.0 / (s.minDistance + 1.0);
    var timeFactor := 1.0 / ((s.step as real / LIFESPAN as real) + 1.0);
    if s.hitTarget then 1000.0 / (s.step as real + 1.0)
    else if s.crashed then base * timeFactor * 0.5
    else base * timeFactor
  }

  /** The range of the fitness: a hit scores 1000/(step+1), in (0, 1000]; a
      miss scores in (0, 1]. */
  lemma FitnessRange(s: RocketState)
    ensures s.hitTarget ==> Fitness(s) == 1000.0 / (s.step as real + 1.0) && 0.0 < Fitness(s) <= 1000.0
    ensures Fitness(s) > 0.0
    ensures !s.hitTarget ==> Fitness(s) <= 1.0
  {
    var base := 1.0 / (s.minDistance + 1.0);
    var timeFactor := 1.0 / ((s.step as real / LIFESPAN as real) + 1.0);
    assert 0.0 < timeFactor <= 1.0;
    if s.hitTarget {
      assert 0.0 < 1000.0 / (s.step as real + 1.0) <= 1000.0;
    } else {
      assert s.minDistance >= 0.0;
      assert 0.0 < base <= 1.0;
      MulBounds(base, timeFactor);
    }
  }

  lemma MulBounds(a: real, b: real)
    requires 0.0 < a <= 1.0 && 0.0 < b <= 1.0
    ensures 0.0 < a * b <= 1.0
  {
    assert a * b <= a * 1.0;
  }

  /** A crash halves the fitness the rocket would otherwise have earned. */
  lemma CrashHalvesFitness(s: RocketState)
    requires !s.hitTarget && s.crashed
    ensures Fitness(s) == Fitness(s.(crashed := false)) / 2.0
  {
  }

  /** Among rockets that hit the target, the earlier arrival scores higher. */
  lemma EarlierHitScoresHigher(s1: RocketState, s2: RocketState)
    requires s1.hitTarget && s2.hitTarget && s1.step < s2.step
    ensures Fitness(s1) > Fitness(s2)
  {
    var a, b := s1.step as real + 1.0, s2.step as real + 1.0;
    var x, y := 1000.0 / a, 1000.0 / b;
    assert x * a == 1000.0 && y * b == 1000.0;
    assert y > 0.0;
    assert y * a < y * b;
    assert y * a < x * a;
  }

  /** Among rockets that missed, with the same flags and step count, the one
      that came closer scores higher. */
  lemma CloserScoresHigher(s1: RocketState, s2: RocketState)
    requires s1.minDistance < s2.minDistance
    requires !s1.hitTarget && !s2.hitTarget && s1.crashed == s2.crashed && s1.step == s2.step
    ensures Fitness(s1) > Fitness(s2)
  {
    var b1, b2 := 1.0 / (s1.minDistance + 1.0), 1.0 / (s2.minDistance + 1.0);
    assert b1 > b2 by {
      assert s1.minDistance >= 0.0;
      assert b1 * (s1.minDistance + 1.0) == 1.0;
      assert b2 * (s2.minDistance + 1.0) == 1.0;
    }
    var t := 1.0 / ((s1.step as real / LIFESPAN as real) + 1.0);
    assert t > 0.0;
    assert b1 * t > b2 * t;
  }

  /** The fitness does not depend on the value stored by an earlier call, so
      computing it again gives the same value. */
  lemma FitnessIgnoresStoredFitness(s: RocketState, stored: real)
    ensures Fitness(s.(fitness := stored)) == Fitness(s)
  {
  }

  class Rocket {
    var minDistance: NonNegReal
    var position: Vec2
    var velocity: Vec2
    var acceleration: Vec2
    /** The genome, fixed for the rocket's whole life. */
    const dna: DNA
    var fitness: real
    var hitTarget: bool
    var crashed: bool
    var step: nat

    ghost function State(): RocketState
      reads this
    {
      RocketState(minDistance, position, velocity, acceleration, fitness, hitTarget, crashed, step)
    }

    /** `Rocket::new`. */
    constructor (dna: DNA)
      ensures this.dna == dna
      ensures State() == Initial()
    {
      minDistance := F64_MAX;
      position := START_POS;
      velocity := (0.0, 0.0);
      acceleration := (0.0, -0.1);
      this.dna := dna;
      fitness := 0.0;
      hitTarget := false;
      crashed := false;
      step := 0;
    }

    /** `apply_Force`. */
    method ApplyForce(force: Vec2)
      modifies this`acceleration
      ensures State() == old(State()).(acceleration := WithForce(old(acceleration), force))
    {
      acceleration := (acceleration.0 + force.0 * 2.0, acceleration.1 + force.1 * 2.0);
    }

    /** `calculate_fitness`: stores the fitness and returns it. */
    method CalculateFitness() returns (f: real)
      modifies this`fitness
      ensures f == Fitness(old(State())) && fitness == f
      ensures State() == old(State()).(fitness := f)
    {
      var value := 1.0 / (minDistance + 1.0);
      var timeFactor := 1.0 / ((step as real / LIFESPAN as real) + 1.0);
      value := value * timeFactor;
      if hitTarget {
        value := 1000.0 / (step as real + 1.0);
      } else if crashed {
        value := value * 0.5;
      }
      fitness := value;
      f := fitness;
    }

    /** `update`, with the obstacle cells passed in. */
    method Update(obstacles: set<(int, int)>)
      requires step < LIFESPAN ==> step < |dna.genes|
      modifies this
      ensures State() == Tick(old(State()), dna.genes, obstacles)
    {
      CheckTerminationPhase(obstacles);
      ConsumeGenePhase();
      IntegratePhase();
    }

    /** The goal, bounds and obstacle tests at the start of `update`. */
    method CheckTerminationPhase(obstacles: set<(int, int)>)
      modifies this`minDistance, this`position, this`hitTarget, this`crashed
      ensures State() == CheckTermination(old(State()), obstacles)
    {
      var distance := SquaredDistance(position, TARGET_POS);
      if distance < TARGET_RADIUS * TARGET_RADIUS {
        hitTarget := true;
        position := TARGET_POS;
      }
      if distance < minDistance {
        minDistance := distance;
      }

      if OutOfBounds(position) {
        crashed := true;
      }

      if GridCell(position) in obstacles {
        crashed := true;
      }
    }

    /** The gene applied as a force while genes remain. */
    method ConsumeGenePhase()
      requires step < LIFESPAN ==> step < |dna.genes|
      modifies this`acceleration, this`step
      ensures State() == ConsumeGene(old(State()), dna.genes)
    {
      if step < LIFESPAN {
        var force := dna.genes[step];
        ApplyForce(force);
        step := step + 1;
      }
    }

    /** The move of a rocket that has neither hit nor crashed. */
    method IntegratePhase()
      modifies this`velocity, this`position, this`acceleration
      ensures State() == Integrate(old(State()))
    {
      if !hitTarget && !crashed {
        velocity := ClampVelocity(Add(velocity, acceleration));
        position := Add(position, velocity);
        acceleration := (0.0, 0.0);
      }
    }
  }
}
