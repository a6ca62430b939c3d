/**
 * RouletteSelect (source/Evolve/World_select.h): fitness-proportional
 * selection with replacement.  The weights of an IndexMap start as
 * CalcFitnessID(id) of every slot, occupied or not; each round draws a
 * position below the total weight, the slot owning that position reproduces,
 * and in an asynchronous world the offspring's slot then takes the
 * offspring's fitness.
 */
module RouletteSelection {
  import opened MiddleSquareWeyl
  import opened WorldModel
  import opened WeightedIndex

  /** A round can draw: the weights are non-negative with a positive total (what IndexMap::Index needs). */
  predicate Drawable(ws: seq<real>)
  {
    NonNegative(ws) && Sum(ws) > 0.0
  }

  /** The parent a round picks from raw draw d: the owner of position GetDouble(total). */
  function RoulettePick(ws: seq<real>, d: u32): (parent: nat)
    requires Drawable(ws)
    ensures parent < |ws| && ws[parent] > 0.0
    ensures Sum(ws[..parent]) <= ScaledBelow(d, Sum(ws)) < Sum(ws[..parent + 1])
  {
    Index(ws, ScaledBelow(d, Sum(ws)))
  }

  /** A slot with fitness zero is never picked, and a slot is picked exactly when the draw lands in its slice. */
  lemma RoulettePickIsSlice(ws: seq<real>, d: u32, j: nat)
    requires Drawable(ws) && j < |ws|
    ensures RoulettePick(ws, d) == j <==>
              Sum(ws[..j]) <= ScaledBelow(d, Sum(ws)) < Sum(ws[..j + 1])
    ensures ws[j] == 0.0 ==> RoulettePick(ws, d) != j
  {
    var pos := ScaledBelow(d, Sum(ws));
    IndexIsSliceOwner(ws, pos, j);
  }

  /**
   * The weights are loaded from every slot, so an empty slot with a positive
   * CalcFitnessID can be chosen as a parent: in a world whose slot 0 is empty,
   * a round that draws 0 (as RouletteSelect's rounds are described by
   * RoundsMatch) reproduces the empty slot.
   */
  lemma EmptySlotCanBePicked(w: World<int>, births: seq<Birth>)
    requires w == World([false, true], [0, 0], [1.0, 1.0])
    requires |births| == 1 && RoundsMatch(w.fitness, false, [0], [1.0], [0], births)
    ensures births[0].parent < w.Size() && !w.occupied[births[0].parent]
  {
    var ws := FitnessAfter(w.fitness, false, [0], [1.0], 0);
    assert ws == [1.0, 1.0];
    assert ws[..1] == [1.0];
    assert Sum(ws) == 2.0;
    assert ScaledBelow(0, 2.0) == 0.0;
  }

  /** The first |births| rounds could all draw, and each gave one copy of its pick. */
  predicate RoundsMatch(fitness: seq<real>, synchronous: bool, offspring: seq<nat>,
                        offspringFitness: seq<real>, draws: seq<u32>, births: seq<Birth>)
    requires |births| <= |offspring| && |births| <= |offspringFitness| && |births| <= |draws|
    requires forall r :: 0 <= r < |offspring| ==> offspring[r] < |fitness|
  {
    forall r :: 0 <= r < |births| ==>
      var ws := FitnessAfter(fitness, synchronous, offspring, offspringFitness, r);
      Drawable(ws) && births[r] == Birth(RoulettePick(ws, draws[r]), 1)
  }

  /** One more matching round extends RoundsMatch. */
  lemma RoundsMatchExtend(fitness: seq<real>, synchronous: bool, offspring: seq<nat>,
                          offspringFitness: seq<real>, draws: seq<u32>, births: seq<Birth>)
    requires |births| < |offspring| && |births| < |offspringFitness| && |births| < |draws|
    requires forall r :: 0 <= r < |offspring| ==> offspring[r] < |fitness|
    requires RoundsMatch(fitness, synchronous, offspring, offspringFitness, draws, births)
    requires Drawable(FitnessAfter(fitness, synchronous, offspring, offspringFitness, |births|))
    ensures var ws := FitnessAfter(fitness, synchronous, offspring, offspringFitness, |births|);
            RoundsMatch(fitness, synchronous, offspring, offspringFitness, draws,
                        births + [Birth(RoulettePick(ws, draws[|births|]), 1)])
  {
  }

  /** The loading loop: a weight for every slot of the population, occupied or not. */
  method LoadWeights<G>(w: World<G>) returns (weights: seq<real>)
    requires w.Valid()
    ensures weights == w.fitness
  {
    weights := seq(w.Size(), _ => 0.0);
    for id := 0 to w.Size()
      invariant |weights| == w.Size()
      invariant forall i :: 0 <= i < id ==> weights[i] == w.fitness[i]
    {
      weights := weights[id := w.fitness[id]];
    }
  }

  /**
   * RouletteSelect(world, count).  draws[r] is the raw 32-bit value behind
   * round r's random.GetDouble(total).  ok is false when some round's weights
   * cannot be drawn from (a negative weight or a zero total, which fail
   * IndexMap's own checks); births then holds the rounds before it.
   */
  method RouletteSelect<G>(w: World<G>, count: nat, synchronous: bool, draws: seq<u32>,
                           offspring: seq<nat>, offspringFitness: seq<real>)
    returns (births: seq<Birth>, ok: bool)
    requires w.Valid() && count > 0
    requires |draws| == count && |offspring| == count && |offspringFitness| == count
    requires forall r :: 0 <= r < count ==> offspring[r] < |w.fitness|
    ensures |births| <= count
    ensures ok ==> |births| == count
    ensures !ok ==> (|births| < count &&
                     !Drawable(FitnessAfter(w.fitness, synchronous, offspring, offspringFitness, |births|)))
    ensures RoundsMatch(w.fitness, synchronous, offspring, offspringFitness, draws, births)
  {
    var weights := LoadWeights(w);
    births := [];
    ok := true;
    for n := 0 to count
      invariant |births| == n
      invariant weights == FitnessAfter(w.fitness, synchronous, offspring, offspringFitness, n)
      invariant RoundsMatch(w.fitness, synchronous, offspring, offspringFitness, draws, births)
    {
      if !Drawable(weights) {
        ok := false;
        return;
      }
      var fitPos := ScaledBelow(draws[n], Sum(weights));
      var parentId := Index(weights, fitPos);
      RoundsMatchExtend(w.fitness, synchronous, offspring, offspringFitness, draws, births);
      births := births + [Birth(parentId, 1)];
      if !synchronous {
        weights := weights[offspring[n] := offspringFitness[n]];
      }
    }
  }
}
