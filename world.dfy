/**
 * The parts of emp::World that the selection routines of
 * source/Evolve/World_select.h use.  World itself is not part of this model:
 * a selection call sees a snapshot of the population (World) and reports
 * what it asks the world to do as a log of births (Birth).
 */
module WorldModel {

  /** One call of world.DoBirth(world.GetGenomeAt(parent), parent, count). */
  datatype Birth = Birth(parent: nat, count: nat)

  /**
   * For every slot id below GetSize(): IsOccupied(id), GetGenomeAt(id) and
   * CalcFitnessID(id).  Fitness is exact (no IEEE rounding).
   */
  datatype World<G> = World(occupied: seq<bool>, genomes: seq<G>, fitness: seq<real>)
  {
    predicate Valid()
    {
      |occupied| == |genomes| == |fitness|
    }

    /** GetSize(). */
    function Size(): nat
    {
      |occupied|
    }

    /** GetNumOrgs(): the number of occupied slots. */
    function NumOrgs(): (n: nat)
      ensures n <= Size()
    {
      CountTrue(occupied)
    }
  }

  /**
   * CalcFitnessID of every slot before round k of a selection loop that
   * reads fitness between its births.  offspring[r] is the slot DoBirth
   * placed round r's offspring in and offspringFitness[r] its CalcFitnessID.
   * An asynchronous world places offspring at once; a synchronous one places
   * them in the next generation, so the fitnesses stay as they were.
   */
  function FitnessAfter(fitness: seq<real>, synchronous: bool, offspring: seq<nat>,
                        offspringFitness: seq<real>, k: nat): (fs: seq<real>)
    requires k <= |offspring| && k <= |offspringFitness|
    requires forall r :: 0 <= r < k ==> offspring[r] < |fitness|
    ensures |fs| == |fitness|
    ensures synchronous ==> fs == fitness
  {
    if k == 0 then fitness
    else
      var prev := FitnessAfter(fitness, synchronous, offspring, offspringFitness, k - 1);
      if synchronous then prev else prev[offspring[k - 1] := offspringFitness[k - 1]]
  }

  /** A slot no offspring of the first k rounds was placed in keeps its fitness. */
  lemma {:induction false} FitnessAfterUntouched(fitness: seq<real>, synchronous: bool, offspring: seq<nat>,
                                                 offspringFitness: seq<real>, k: nat, i: nat)
    requires k <= |offspring| && k <= |offspringFitness|
    requires forall r :: 0 <= r < k ==> offspring[r] < |fitness|
    requires i < |fitness| && forall r :: 0 <= r < k ==> offspring[r] != i
    ensures FitnessAfter(fitness, synchronous, offspring, offspringFitness, k)[i] == fitness[i]
  {
    if k > 0 {
      FitnessAfterUntouched(fitness, synchronous, offspring, offspringFitness, k - 1, i);
    }
  }

  /** One more round: an asynchronous world writes that round's offspring fitness into its slot. */
  lemma FitnessAfterStep(fitness: seq<real>, synchronous: bool, offspring: seq<nat>,
                         offspringFitness: seq<real>, k: nat)
    requires k < |offspring| && k < |offspringFitness|
    requires forall r :: 0 <= r < |offspring| ==> offspring[r] < |fitness|
    ensures FitnessAfter(fitness, synchronous, offspring, offspringFitness, k + 1) ==
            var prev := FitnessAfter(fitness, synchronous, offspring, offspringFitness, k);
            if synchronous then prev else prev[offspring[k] := offspringFitness[k]]
  {
  }

  /** The number of true entries of s. */
  function CountTrue(s: seq<bool>): (n: nat)
    ensures n <= |s|
    ensures n > 0 <==> exists i :: 0 <= i < |s| && s[i]
  {
    if s == [] then 0
    else
      var n := CountTrue(s[..|s| - 1]) + (if s[|s| - 1] then 1 else 0);
      assert forall i :: 0 <= i < |s| - 1 ==> s[..|s| - 1][i] == s[i];
      n
  }

  /** Counting one more slot adds one exactly when that slot is true. */
  lemma CountTrueSnoc(s: seq<bool>, id: nat)
    requires id < |s|
    ensures CountTrue(s[..id + 1]) == CountTrue(s[..id]) + (if s[id] then 1 else 0)
  {
    assert s[..id + 1][..id] == s[..id];
  }
}
