/** The genome of a rocket: one force vector per tick of a generation. */
module Genome {
  import opened Config

  /** Single-point crossover at `point`: genes below the point come from
      `mine`, the rest of the first LIFESPAN genes from `partner`. */
  function CrossoverGenes(mine: seq<Vec2>, partner: seq<Vec2>, point: nat): (child: seq<Vec2>)
    requires point < LIFESPAN && point <= |mine| && LIFESPAN <= |partner|
    ensures |child| == LIFESPAN
    ensures forall i :: 0 <= i < point ==> child[i] == mine[i]
    ensures forall i :: point <= i < LIFESPAN ==> child[i] == partner[i]
    // the split point is below LIFESPAN, so the last gene is always the partner's
    ensures child[LIFESPAN - 1] == partner[LIFESPAN - 1]
  {
    mine[..point] + partner[point..LIFESPAN]
  }

  /** With split point 0 the child is a copy of the partner's first LIFESPAN genes. */
  lemma CrossoverAtZero(mine: seq<Vec2>, partner: seq<Vec2>)
    requires LIFESPAN <= |partner|
    ensures CrossoverGenes(mine, partner, 0) == partner[..LIFESPAN]
  {
  }

  /** Crossing a genome of LIFESPAN genes with itself gives it back, whatever the split point. */
  lemma CrossoverWithItself(genes: seq<Vec2>, point: nat)
    requires |genes| == LIFESPAN && point < LIFESPAN
    ensures CrossoverGenes(genes, genes, point) == genes
  {
  }

  /** The genome after one mutation pass: gene i is replaced by
      `replacements[i]` exactly when the draw `fires[i]` fired. */
  function Mutated(genes: seq<Vec2>, fires: seq<bool>, replacements: seq<Vec2>): (m: seq<Vec2>)
    requires |fires| == |genes| && |replacements| == |genes|
    ensures |m| == |genes|
    ensures forall i :: 0 <= i < |genes| ==> m[i] == (if fires[i] then replacements[i] else genes[i])
    decreases |genes|
  {
    if genes == [] then []
    else [if fires[0] then replacements[0] else genes[0]] + Mutated(genes[1..], fires[1..], replacements[1..])
  }

  /** A pass in which no draw fires leaves the genome unchanged. */
  lemma MutatedWithoutFiring(genes: seq<Vec2>, fires: seq<bool>, replacements: seq<Vec2>)
    requires |fires| == |genes| && |replacements| == |genes|
    requires forall i :: 0 <= i < |fires| ==> !fires[i]
    ensures Mutated(genes, fires, replacements) == genes
  {
  }

  /** The random draws one `mutate` pass makes, as `gen_bool` can produce
      them: with rate 0 it never fires, with rate 1 it always fires. */
  predicate MutationDraws(rate: Probability, n: nat, fires: seq<bool>, replacements: seq<Vec2>)
  {
    && |fires| == n && |replacements| == n
    && forall i :: 0 <= i < n ==> (fires[i] ==> rate > 0.0) && (!fires[i] ==> rate < 1.0)
  }

  class DNA {
    var genes: seq<Vec2>

    /** The struct literal `DNA { genes }`. */
    constructor FromGenes(genes: seq<Vec2>)
      ensures this.genes == genes
    {
      this.genes := genes;
    }

    /** `DNA::new`: LIFESPAN zero forces. */
    static method New() returns (dna: DNA)
      ensures fresh(dna)
      ensures |dna.genes| == LIFESPAN
      ensures forall i :: 0 <= i < LIFESPAN ==> dna.genes[i] == (0.0, 0.0)
    {
      var genes := [];
      for k := 0 to LIFESPAN
        invariant |genes| == k
        invariant forall i :: 0 <= i < k ==> genes[i] == (0.0, 0.0)
      {
        genes := genes + [(0.0, 0.0)];
      }
      dna := new DNA.FromGenes(genes);
    }

    /** `crossover` with the drawn split point passed in. Neither parent is
        modified: the method has no modifies clause. */
    method Crossover(partner: DNA, point: nat) returns (child: DNA)
      requires point < LIFESPAN && point <= |genes| && LIFESPAN <= |partner.genes|
      ensures fresh(child)
      ensures child.genes == CrossoverGenes(genes, partner.genes, point)
    {
      var childGenes := [];
      for i := 0 to LIFESPAN
        invariant |childGenes| == i
        invariant forall j :: 0 <= j < i && j < point ==> childGenes[j] == genes[j]
        invariant forall j :: point <= j < i ==> childGenes[j] == partner.genes[j]
      {
        if i < point {
          childGenes := childGenes + [genes[i]];
        } else {
          childGenes := childGenes + [partner.genes[i]];
        }
      }
      child := new DNA.FromGenes(childGenes);
    }

    /** `mutate` with the `gen_bool` outcomes and the replacement forces
        (the direction drawn for each fired gene) passed in. */
    method Mutate(rate: Probability, fires: seq<bool>, replacements: seq<Vec2>)
      requires MutationDraws(rate, |genes|, fires, replacements)
      modifies this
      ensures genes == Mutated(old(genes), fires, replacements)
      ensures |genes| == |old(genes)|
      ensures rate == 0.0 ==> genes == old(genes)
    {
      for i := 0 to |genes|
        invariant |genes| == |old(genes)|
        invariant forall j :: 0 <= j < i ==> genes[j] == (if fires[j] then replacements[j] else old(genes)[j])
        invariant forall j :: i <= j < |genes| ==> genes[j] == old(genes)[j]
      {
        if fires[i] {
          genes := genes[i := replacements[i]];
        }
      }
      if rate == 0.0 {
        MutatedWithoutFiring(old(genes), fires, replacements);
      }
    }
  }
}
