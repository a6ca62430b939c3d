/**
 * EcoSelect (source/Evolve/World_select.h): tournament selection on an
 * adjusted fitness.  Every extra function owns a resource pool; the slots
 * that tie at that function's running maximum (which starts at 0.0) split
 * the pool evenly, and the shares are added to their base fitness
 * CalcFitnessID before the tournaments run.  An extra function is modelled
 * as a function of the slot id whose organism it is applied to, and all
 * arithmetic is exact.
 */
module EcoSelection {
  import opened WorldModel
  import opened TournamentSelection

  /** extra_fitnesses[f]: one extra function applied to every slot id below size. */
  function Row(extraFun: nat -> real, size: nat): seq<real>
  {
    seq(size, i requires i >= 0 => extraFun(i))
  }

  /** The whole extra_fitnesses table, one row per extra function. */
  function ExtraTable(extraFuns: seq<nat -> real>, size: nat): seq<seq<real>>
  {
    seq(|extraFuns|, f requires 0 <= f < |extraFuns| => Row(extraFuns[f], size))
  }

  /**
   * (max_extra_fit, max_count) after the first n values: a strictly larger
   * value restarts the count at 1, an equal one increments it.
   */
  function PoolScan(vals: seq<real>, n: nat): (real, nat)
    requires n <= |vals|
  {
    if n == 0 then (0.0, 0)
    else
      var p := PoolScan(vals, n - 1);
      var v := vals[n - 1];
      if v > p.0 then (v, 1)
      else if v == p.0 then (p.0, p.1 + 1)
      else p
  }

  /** The number of the first n values equal to m. */
  function CountEq(vals: seq<real>, m: real, n: nat): (c: nat)
    requires n <= |vals|
    ensures c <= n
  {
    if n == 0 then 0 else CountEq(vals, m, n - 1) + (if vals[n - 1] == m then 1 else 0)
  }

  lemma {:induction false} CountEqNone(vals: seq<real>, m: real, n: nat)
    requires n <= |vals|
    requires forall k :: 0 <= k < n ==> vals[k] != m
    ensures CountEq(vals, m, n) == 0
  {
    if n > 0 {
      CountEqNone(vals, m, n - 1);
    }
  }

  lemma {:induction false} CountEqSome(vals: seq<real>, m: real, n: nat, k: nat)
    requires k < n <= |vals| && vals[k] == m
    ensures CountEq(vals, m, n) > 0
  {
    if k < n - 1 {
      CountEqSome(vals, m, n - 1, k);
    }
  }

  /** A value held by exactly one position j is counted once. */
  lemma {:induction false} CountEqOne(vals: seq<real>, m: real, n: nat, j: nat)
    requires j < n <= |vals| && vals[j] == m
    requires forall k :: 0 <= k < n && k != j ==> vals[k] != m
    ensures CountEq(vals, m, n) == 1
  {
    if j < n - 1 {
      CountEqOne(vals, m, n - 1, j);
    } else {
      CountEqNone(vals, m, n - 1);
    }
  }

  /**
   * The running maximum is at least 0.0, bounds the values seen, is 0.0 or
   * one of them, and its count is the number of values equal to it.
   */
  lemma {:induction false} PoolScanSpec(vals: seq<real>, n: nat)
    requires n <= |vals|
    ensures PoolScan(vals, n).0 >= 0.0
    ensures forall k :: 0 <= k < n ==> vals[k] <= PoolScan(vals, n).0
    ensures PoolScan(vals, n).0 == 0.0 || exists k :: 0 <= k < n && vals[k] == PoolScan(vals, n).0
    ensures PoolScan(vals, n).1 == CountEq(vals, PoolScan(vals, n).0, n)
  {
    if n > 0 {
      PoolScanSpec(vals, n - 1);
      var p := PoolScan(vals, n - 1);
      if vals[n - 1] > p.0 {
        CountEqNone(vals, vals[n - 1], n - 1);
      }
    }
  }

  /** Nobody earns a pool exactly when every value of its function is negative. */
  lemma NoShareIffAllNegative(vals: seq<real>)
    ensures PoolScan(vals, |vals|).1 == 0 <==> forall k :: 0 <= k < |vals| ==> vals[k] < 0.0
  {
    PoolScanSpec(vals, |vals|);
    var m := PoolScan(vals, |vals|).0;
    if forall k :: 0 <= k < |vals| ==> vals[k] < 0.0 {
      CountEqNone(vals, m, |vals|);
    } else if m == 0.0 {
      var k :| 0 <= k < |vals| && vals[k] >= 0.0;
      CountEqSome(vals, m, |vals|, k);
    } else {
      var k :| 0 <= k < |vals| && vals[k] == m;
      CountEqSome(vals, m, |vals|, k);
    }
  }

  /**
   * Because the running maximum starts at 0.0, values of exactly 0.0 tie
   * with it when nothing is larger: here two slots share the pool.
   */
  lemma ZeroValuesShare()
    ensures PoolScan([0.0, -1.0, 0.0], 3) == (0.0, 2)
  {
    var vals := [0.0, -1.0, 0.0];
    assert PoolScan(vals, 1) == (0.0, 1);
    assert PoolScan(vals, 2) == (0.0, 1);
  }

  /**
   * The share slot i gets from one pool whose values peak at top.0, reached
   * top.1 times: pool / top.1 if it ties the peak and top.1 > 0.
   */
  function Share(vals: seq<real>, top: (real, nat), pool: real, i: nat): real
    requires i < |vals|
  {
    if top.1 > 0 && vals[i] == top.0 then pool / (top.1 as real) else 0.0
  }

  /** The shares the first n slots get from one pool. */
  function ShareSum(vals: seq<real>, top: (real, nat), pool: real, n: nat): real
    requires n <= |vals|
  {
    if n == 0 then 0.0 else ShareSum(vals, top, pool, n - 1) + Share(vals, top, pool, n - 1)
  }

  lemma {:induction false} ShareSumCounts(vals: seq<real>, top: (real, nat), pool: real, n: nat)
    requires n <= |vals|
    ensures ShareSum(vals, top, pool, n) ==
              if top.1 > 0 then (CountEq(vals, top.0, n) as real) * (pool / (top.1 as real)) else 0.0
  {
    if n > 0 {
      ShareSumCounts(vals, top, pool, n - 1);
      if top.1 > 0 && vals[n - 1] == top.0 {
        MulSucc(CountEq(vals, top.0, n - 1) as real, pool / (top.1 as real));
      }
    }
  }

  lemma MulSucc(c: real, b: real)
    ensures (c + 1.0) * b == c * b + b
  {
  }

  /** The shares of one pool add up to the whole pool when somebody earns it, and to nothing otherwise. */
  lemma PoolSplitExactly(vals: seq<real>, pool: real)
    ensures ShareSum(vals, PoolScan(vals, |vals|), pool, |vals|) == if PoolScan(vals, |vals|).1 > 0 then pool else 0.0
  {
    ShareSumCounts(vals, PoolScan(vals, |vals|), pool, |vals|);
    PoolScanSpec(vals, |vals|);
    var c := PoolScan(vals, |vals|).1;
    if c > 0 {
      assert (c as real) * (pool / (c as real)) == pool;
    }
  }

  /** A slot whose non-negative value beats every other slot's takes the whole pool, and nobody else gets any. */
  lemma UniqueBestTakesPool(vals: seq<real>, pool: real, j: nat)
    requires j < |vals| && vals[j] >= 0.0
    requires forall k :: 0 <= k < |vals| && k != j ==> vals[k] < vals[j]
    ensures Share(vals, PoolScan(vals, |vals|), pool, j) == pool
    ensures forall k :: 0 <= k < |vals| && k != j ==> Share(vals, PoolScan(vals, |vals|), pool, k) == 0.0
  {
    PoolScanSpec(vals, |vals|);
    var m := PoolScan(vals, |vals|).0;
    CountEqOne(vals, m, |vals|, j);
  }

  /** The table has one row of size slots per extra function, and a pool for each. */
  predicate Shaped(table: seq<seq<real>>, pools: seq<real>, size: nat)
  {
    |table| <= |pools| && forall f :: 0 <= f < |table| ==> |table[f]| == size
  }

  /** What slot i gets from the first n pools. */
  function Bonus(table: seq<seq<real>>, pools: seq<real>, size: nat, i: nat, n: nat): real
    requires Shaped(table, pools, size) && i < size && n <= |table|
  {
    if n == 0 then 0.0
    else Bonus(table, pools, size, i, n - 1) + Share(table[n - 1], PoolScan(table[n - 1], size), pools[n - 1], i)
  }

  /** base_fitness after the first n pools have been handed out. */
  function Adjusted(fits: seq<real>, table: seq<seq<real>>, pools: seq<real>, n: nat): (adj: seq<real>)
    requires Shaped(table, pools, |fits|) && n <= |table|
    ensures |adj| == |fits|
  {
    seq(|fits|, i requires 0 <= i < |fits| => fits[i] + Bonus(table, pools, |fits|, i, n))
  }

  /** An extra function whose values are all negative leaves every adjusted fitness as it was. */
  lemma NegativeFunctionAwardsNothing(table: seq<seq<real>>, pools: seq<real>, size: nat, i: nat, f: nat)
    requires Shaped(table, pools, size) && i < size && f < |table|
    requires forall k :: 0 <= k < size ==> table[f][k] < 0.0
    ensures Bonus(table, pools, size, i, f + 1) == Bonus(table, pools, size, i, f)
  {
    NoShareIffAllNegative(table[f]);
  }

  /**
   * The collection loop: base fitness and every extra value of every slot,
   * with the running maximum and tie count of each extra function.
   */
  method CollectFitness<G>(w: World<G>, extraFuns: seq<nat -> real>)
    returns (baseFitness: seq<real>, extraFitnesses: seq<seq<real>>, maxExtraFit: seq<real>, maxCount: seq<nat>)
    requires w.Valid()
    ensures baseFitness == w.fitness
    ensures extraFitnesses == ExtraTable(extraFuns, w.Size())
    ensures |maxExtraFit| == |extraFuns| && |maxCount| == |extraFuns|
    ensures forall f :: 0 <= f < |extraFuns| ==>
              maxExtraFit[f] == PoolScan(extraFitnesses[f], w.Size()).0 &&
              maxCount[f] == PoolScan(extraFitnesses[f], w.Size()).1
  {
    var size := w.Size();
    ghost var table := ExtraTable(extraFuns, size);
    baseFitness := seq(size, _ => 0.0);
    extraFitnesses := seq(|extraFuns|, _ => seq(size, _ => 0.0));
    maxExtraFit := seq(|extraFuns|, _ => 0.0);
    maxCount := seq(|extraFuns|, _ => 0);
    for orgId := 0 to size
      invariant |baseFitness| == size && forall i :: 0 <= i < orgId ==> baseFitness[i] == w.fitness[i]
      invariant |extraFitnesses| == |extraFuns| && forall f :: 0 <= f < |extraFuns| ==> |extraFitnesses[f]| == size
      invariant forall f, i :: 0 <= f < |extraFuns| && 0 <= i < orgId ==> extraFitnesses[f][i] == table[f][i]
      invariant |maxExtraFit| == |extraFuns| && |maxCount| == |extraFuns|
      invariant forall f :: 0 <= f < |extraFuns| ==> (maxExtraFit[f], maxCount[f]) == PoolScan(table[f], orgId)
    {
      baseFitness := baseFitness[orgId := w.fitness[orgId]];
      extraFitnesses, maxExtraFit, maxCount := CollectSlot(extraFuns, size, orgId, extraFitnesses, maxExtraFit, maxCount);
    }
    forall f | 0 <= f < |extraFuns|
      ensures extraFitnesses[f] == table[f]
    {
    }
  }

  /** The inner loop of the collection: every extra function applied to slot orgId. */
  method CollectSlot(extraFuns: seq<nat -> real>, size: nat, orgId: nat, extraFitnesses: seq<seq<real>>,
                     maxExtraFit: seq<real>, maxCount: seq<nat>)
    returns (extraFitnesses': seq<seq<real>>, maxExtraFit': seq<real>, maxCount': seq<nat>)
    requires orgId < size
    requires |extraFitnesses| == |extraFuns| && forall f :: 0 <= f < |extraFuns| ==> |extraFitnesses[f]| == size
    requires |maxExtraFit| == |extraFuns| && |maxCount| == |extraFuns|
    requires forall f :: 0 <= f < |extraFuns| ==>
               (maxExtraFit[f], maxCount[f]) == PoolScan(ExtraTable(extraFuns, size)[f], orgId)
    ensures |extraFitnesses'| == |extraFuns| && forall f :: 0 <= f < |extraFuns| ==> |extraFitnesses'[f]| == size
    ensures forall f, i :: 0 <= f < |extraFuns| && 0 <= i < size ==>
              extraFitnesses'[f][i] == if i == orgId then extraFuns[f](orgId) else extraFitnesses[f][i]
    ensures |maxExtraFit'| == |extraFuns| && |maxCount'| == |extraFuns|
    ensures forall f :: 0 <= f < |extraFuns| ==>
              (maxExtraFit'[f], maxCount'[f]) == PoolScan(ExtraTable(extraFuns, size)[f], orgId + 1)
  {
    ghost var table := ExtraTable(extraFuns, size);
    extraFitnesses', maxExtraFit', maxCount' := extraFitnesses, maxExtraFit, maxCount;
    for exId := 0 to |extraFuns|
      invariant |extraFitnesses'| == |extraFuns| && forall f :: 0 <= f < |extraFuns| ==> |extraFitnesses'[f]| == size
      invariant forall f, i :: 0 <= f < |extraFuns| && 0 <= i < size ==>
                  extraFitnesses'[f][i] == if i == orgId && f < exId then extraFuns[f](orgId) else extraFitnesses[f][i]
      invariant |maxExtraFit'| == |extraFuns| && |maxCount'| == |extraFuns|
      invariant forall f :: 0 <= f < |extraFuns| ==>
                  (maxExtraFit'[f], maxCount'[f]) == PoolScan(table[f], if f < exId then orgId + 1 else orgId)
    {
      var curFit := extraFuns[exId](orgId);
      assert table[exId][orgId] == curFit;
      extraFitnesses' := extraFitnesses'[exId := extraFitnesses'[exId][orgId := curFit]];
      if curFit > maxExtraFit'[exId] {
        maxExtraFit' := maxExtraFit'[exId := curFit];
        maxCount' := maxCount'[exId := 1];
      } else if curFit == maxExtraFit'[exId] {
        maxCount' := maxCount'[exId := maxCount'[exId] + 1];
      }
    }
  }

  /**
   * The readjustment loop: for every extra function with max_count > 0,
   * each slot whose value equals max_extra_fit gets pool_sizes / max_count
   * added to its base fitness.
   */
  method HandOutPools(baseFitness: seq<real>, extraFitnesses: seq<seq<real>>, pools: seq<real>,
                      maxExtraFit: seq<real>, maxCount: seq<nat>)
    returns (adjusted: seq<real>)
    requires Shaped(extraFitnesses, pools, |baseFitness|)
    requires |maxExtraFit| == |extraFitnesses| && |maxCount| == |extraFitnesses|
    requires forall f :: 0 <= f < |extraFitnesses| ==>
               maxExtraFit[f] == PoolScan(extraFitnesses[f], |baseFitness|).0 &&
               maxCount[f] == PoolScan(extraFitnesses[f], |baseFitness|).1
    ensures adjusted == Adjusted(baseFitness, extraFitnesses, pools, |extraFitnesses|)
  {
    var size := |baseFitness|;
    adjusted := baseFitness;
    for exId := 0 to |extraFitnesses|
      invariant |adjusted| == size
      invariant forall i :: 0 <= i < size ==>
                  adjusted[i] == baseFitness[i] + Bonus(extraFitnesses, pools, size, i, exId)
    {
      if maxCount[exId] == 0 {
        continue;
      }
      var curBonus := pools[exId] / (maxCount[exId] as real);
      ghost var top := (maxExtraFit[exId], maxCount[exId]);
      for orgId := 0 to size
        invariant |adjusted| == size
        invariant forall i :: 0 <= i < size ==>
                    adjusted[i] == baseFitness[i] + Bonus(extraFitnesses, pools, size, i, exId) +
                                   (if i < orgId then Share(extraFitnesses[exId], top, pools[exId], i) else 0.0)
      {
        if extraFitnesses[exId][orgId] == maxExtraFit[exId] {
          adjusted := adjusted[orgId := adjusted[orgId] + curBonus];
        }
      }
    }
  }

  /** The fitness EcoSelect's tournaments compare. */
  function EcoFitness<G>(w: World<G>, extraFuns: seq<nat -> real>, pools: seq<real>): (adj: seq<real>)
    requires w.Valid() && |pools| >= |extraFuns|
    ensures |adj| == w.Size() == |w.fitness|
  {
    Adjusted(w.fitness, ExtraTable(extraFuns, w.Size()), pools, |extraFuns|)
  }

  /**
   * EcoSelect(world, extra_funs, pool_sizes, t_size, tourny_count).
   * picks[t] are the ids world.GetRandomOrgID() returns for tournament t.
   */
  method EcoSelect<G>(w: World<G>, extraFuns: seq<nat -> real>, pools: seq<real>, tSize: nat,
                      tournyCount: nat, picks: seq<seq<nat>>)
    returns (births: seq<Birth>)
    requires w.Valid() && w.Size() > 0
    requires 0 < tSize <= w.Size()
    requires |pools| >= |extraFuns|
    requires |picks| == tournyCount
    requires forall t :: 0 <= t < tournyCount ==> |picks[t]| == tSize && InRange(|w.fitness|, picks[t])
    ensures births == TournamentRun(EcoFitness(w, extraFuns, pools), picks)
    ensures |births| == tournyCount
    ensures forall t :: 0 <= t < tournyCount ==>
              births[t].count == 1 && births[t].parent in picks[t] &&
              forall k :: 0 <= k < tSize ==>
                EcoFitness(w, extraFuns, pools)[picks[t][k]] <= EcoFitness(w, extraFuns, pools)[births[t].parent]
  {
    var baseFitness, extraFitnesses, maxExtraFit, maxCount := CollectFitness(w, extraFuns);
    var adjusted := HandOutPools(baseFitness, extraFitnesses, pools, maxExtraFit, maxCount);
    assert adjusted == EcoFitness(w, extraFuns, pools);
    births := RunTournaments(adjusted, tSize, picks);
  }

  /** EcoSelect with one pool size for every extra function: the call above with that many copies of it. */
  method EcoSelectUniform<G>(w: World<G>, extraFuns: seq<nat -> real>, poolSize: real, tSize: nat,
                             tournyCount: nat, picks: seq<seq<nat>>)
    returns (births: seq<Birth>)
    requires w.Valid() && w.Size() > 0
    requires 0 < tSize <= w.Size()
    requires |picks| == tournyCount
    requires forall t :: 0 <= t < tournyCount ==> |picks[t]| == tSize && InRange(|w.fitness|, picks[t])
    ensures births == TournamentRun(EcoFitness(w, extraFuns, seq(|extraFuns|, _ => poolSize)), picks)
  {
    var pools := seq(|extraFuns|, _ => poolSize);
    births := EcoSelect(w, extraFuns, pools, tSize, tournyCount, picks);
  }
}
