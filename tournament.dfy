/**
 * TournamentSelect (source/Evolve/World_select.h): each tournament draws
 * t_size slot ids with replacement (world.GetRandomOrgID(), not part of this
 * model, so the drawn ids are an input) and the first entry of maximal
 * fitness reproduces once.  Fitness is read inside the loop, so in an
 * asynchronous world a tournament sees the offspring of the ones before it.
 */
module TournamentSelection {
  import opened WorldModel

  /** Every entry is a slot id below size. */
  predicate InRange(size: nat, entries: seq<nat>)
  {
    forall i :: 0 <= i < |entries| ==> entries[i] < size
  }

  /** Every tournament has entries, all of them slot ids below size. */
  predicate WellFormed(size: nat, contests: seq<seq<nat>>)
  {
    forall t :: 0 <= t < |contests| ==> |contests[t]| > 0 && InRange(size, contests[t])
  }

  /** Position j of entries holds a maximal fitness and no earlier position does. */
  predicate IsFirstMax(fits: seq<real>, entries: seq<nat>, j: nat)
    requires InRange(|fits|, entries)
  {
    && j < |entries|
    && (forall k :: 0 <= k < |entries| ==> fits[entries[k]] <= fits[entries[j]])
    && (forall k :: 0 <= k < j ==> fits[entries[k]] < fits[entries[j]])
  }

  /** At most one position is the first maximal one. */
  lemma FirstMaxUnique(fits: seq<real>, entries: seq<nat>, j: nat, k: nat)
    requires InRange(|fits|, entries)
    requires IsFirstMax(fits, entries, j) && IsFirstMax(fits, entries, k)
    ensures j == k
  {
    assert fits[entries[j]] == fits[entries[k]];
  }

  /** The position a left-to-right scan that replaces its best only on a strictly greater fitness ends on. */
  function FirstMaxIndex(fits: seq<real>, entries: seq<nat>): (j: nat)
    requires InRange(|fits|, entries) && |entries| > 0
    ensures IsFirstMax(fits, entries, j)
  {
    if |entries| == 1 then 0
    else
      var init := entries[..|entries| - 1];
      var j' := FirstMaxIndex(fits, init);
      if fits[entries[|entries| - 1]] > fits[entries[j']] then |entries| - 1 else j'
  }

  /** The slot id that wins a tournament. */
  function Winner(fits: seq<real>, entries: seq<nat>): (best: nat)
    requires InRange(|fits|, entries) && |entries| > 0
    ensures best in entries && best < |fits|
    ensures forall k :: 0 <= k < |entries| ==> fits[entries[k]] <= fits[best]
  {
    entries[FirstMaxIndex(fits, entries)]
  }

  /** The births a run of tournaments asks for: one copy of each winner. */
  function TournamentRun(fits: seq<real>, contests: seq<seq<nat>>): (bs: seq<Birth>)
    requires WellFormed(|fits|, contests)
    ensures |bs| == |contests|
    ensures forall t :: 0 <= t < |contests| ==> bs[t].count == 1 && bs[t].parent in contests[t]
  {
    seq(|contests|, t requires 0 <= t < |contests| => Birth(Winner(fits, contests[t]), 1))
  }

  /** What a run of tournaments in a world with offspring needs: every contest, offspring slot and offspring fitness is there. */
  predicate RunArgs(fitness: seq<real>, offspring: seq<nat>, offspringFitness: seq<real>, contests: seq<seq<nat>>)
  {
    && WellFormed(|fitness|, contests)
    && |contests| <= |offspring| && |contests| <= |offspringFitness|
    && (forall r :: 0 <= r < |offspring| ==> offspring[r] < |fitness|)
  }

  /**
   * The births of the first n tournaments of TournamentSelect: tournament t
   * is scored on the fitness left by the births of tournaments 0 .. t - 1.
   */
  function TournamentRunAfter(fitness: seq<real>, synchronous: bool, offspring: seq<nat>,
                              offspringFitness: seq<real>, contests: seq<seq<nat>>, n: nat): (bs: seq<Birth>)
    requires RunArgs(fitness, offspring, offspringFitness, contests) && n <= |contests|
    ensures |bs| == n
  {
    if n == 0 then []
    else
      TournamentRunAfter(fitness, synchronous, offspring, offspringFitness, contests, n - 1)
        + [Birth(Winner(FitnessAfter(fitness, synchronous, offspring, offspringFitness, n - 1), contests[n - 1]), 1)]
  }

  /** Tournament t's birth is one copy of an entrant no entrant beats on the fitness tournament t sees. */
  lemma {:induction false} RunAfterWinners(fitness: seq<real>, synchronous: bool, offspring: seq<nat>,
                                           offspringFitness: seq<real>, contests: seq<seq<nat>>, n: nat, t: nat)
    requires RunArgs(fitness, offspring, offspringFitness, contests)
    requires t < n <= |contests|
    ensures var fits := FitnessAfter(fitness, synchronous, offspring, offspringFitness, t);
            var b := TournamentRunAfter(fitness, synchronous, offspring, offspringFitness, contests, n)[t];
            && b == Birth(Winner(fits, contests[t]), 1)
            && b.count == 1 && b.parent in contests[t]
            && forall k :: 0 <= k < |contests[t]| ==> fits[contests[t][k]] <= fits[b.parent]
  {
    if t < n - 1 {
      RunAfterWinners(fitness, synchronous, offspring, offspringFitness, contests, n - 1, t);
    }
  }

  /** Every birth of the run, as RunAfterWinners states it for one tournament. */
  lemma RunAfterAllWinners(fitness: seq<real>, synchronous: bool, offspring: seq<nat>,
                           offspringFitness: seq<real>, contests: seq<seq<nat>>)
    requires RunArgs(fitness, offspring, offspringFitness, contests)
    ensures var bs := TournamentRunAfter(fitness, synchronous, offspring, offspringFitness, contests, |contests|);
            forall t :: 0 <= t < |contests| ==>
              var fits := FitnessAfter(fitness, synchronous, offspring, offspringFitness, t);
              bs[t].count == 1 && bs[t].parent in contests[t] &&
              forall k :: 0 <= k < |contests[t]| ==> fits[contests[t][k]] <= fits[bs[t].parent]
  {
    forall t | 0 <= t < |contests|
      ensures var fits := FitnessAfter(fitness, synchronous, offspring, offspringFitness, t);
              var b := TournamentRunAfter(fitness, synchronous, offspring, offspringFitness, contests, |contests|)[t];
              b.count == 1 && b.parent in contests[t] &&
              forall k :: 0 <= k < |contests[t]| ==> fits[contests[t][k]] <= fits[b.parent]
    {
      RunAfterWinners(fitness, synchronous, offspring, offspringFitness, contests, |contests|, t);
    }
  }

  /** In a synchronous world every tournament is scored on the same fitnesses. */
  lemma SynchronousRunIsSnapshot(fitness: seq<real>, offspring: seq<nat>,
                                 offspringFitness: seq<real>, contests: seq<seq<nat>>)
    requires RunArgs(fitness, offspring, offspringFitness, contests)
    ensures TournamentRunAfter(fitness, true, offspring, offspringFitness, contests, |contests|) == TournamentRun(fitness, contests)
  {
    var a := TournamentRunAfter(fitness, true, offspring, offspringFitness, contests, |contests|);
    var b := TournamentRun(fitness, contests);
    forall t | 0 <= t < |contests|
      ensures a[t] == b[t]
    {
      RunAfterWinners(fitness, true, offspring, offspringFitness, contests, |contests|, t);
    }
  }

  /**
   * In an asynchronous world an earlier birth changes a later tournament:
   * tournament 0 of [[1, 1], [0, 1]] on fitnesses [1, 2] picks slot 1, whose
   * offspring of fitness 3 lands in slot 0, and tournament 1 then picks slot 0
   * where a single snapshot would pick slot 1.
   */
  lemma AsyncBirthChangesLaterTournament()
    ensures TournamentRunAfter([1.0, 2.0], false, [0, 0], [3.0, 3.0], [[1, 1], [0, 1]], 2)[1].parent == 0
    ensures TournamentRun([1.0, 2.0], [[1, 1], [0, 1]])[1].parent == 1
  {
    var fs := FitnessAfter([1.0, 2.0], false, [0, 0], [3.0, 3.0], 1);
    assert FitnessAfter([1.0, 2.0], false, [0, 0], [3.0, 3.0], 0) == [1.0, 2.0];
    assert fs == [3.0, 2.0];
    assert [0, 1][..1] == [0];
    assert FirstMaxIndex(fs, [0, 1]) == 0;
    assert [1.0, 2.0][1] > [1.0, 2.0][0];
    assert FirstMaxIndex([1.0, 2.0], [0, 1]) == 1;
  }

  /** Every birth of a run is one copy of a first maximal entry of its tournament. */
  lemma TournamentRunWinners(fits: seq<real>, contests: seq<seq<nat>>, t: nat)
    requires WellFormed(|fits|, contests) && t < |contests|
    ensures |TournamentRun(fits, contests)| == |contests|
    ensures TournamentRun(fits, contests)[t].count == 1
    ensures exists j: nat :: IsFirstMax(fits, contests[t], j) && TournamentRun(fits, contests)[t].parent == contests[t][j]
  {
    var j := FirstMaxIndex(fits, contests[t]);
    assert IsFirstMax(fits, contests[t], j);
  }

  /** An entry whose fitness beats every other id in the tournament wins it. */
  lemma StrictBestWins(fits: seq<real>, entries: seq<nat>, m: nat)
    requires InRange(|fits|, entries) && m in entries
    requires forall k :: 0 <= k < |entries| && entries[k] != m ==> fits[entries[k]] < fits[m]
    ensures Winner(fits, entries) == m
  {
  }

  /**
   * The entries of a tournament are drawn with replacement, so a tournament
   * as large as the population can still miss its best organism.
   */
  lemma FullSizeTournamentCanMissBest()
    ensures Winner([1.0, 2.0], [0, 0]) == 0
  {
  }

  /** The inner scan of TournamentSelect and EcoSelect: the first entry of maximal fitness. */
  method TournamentWinner(fits: seq<real>, entries: seq<nat>) returns (bestId: nat)
    requires InRange(|fits|, entries) && |entries| > 0
    ensures bestId == Winner(fits, entries)
    ensures bestId in entries && forall k :: 0 <= k < |entries| ==> fits[entries[k]] <= fits[bestId]
  {
    var bestFit := fits[entries[0]];
    bestId := entries[0];
    ghost var bi := 0;
    for i := 1 to |entries|
      invariant bi < i && bi == FirstMaxIndex(fits, entries[..i])
      invariant bestId == entries[bi] && bestFit == fits[bestId]
    {
      assert entries[..i + 1][..i] == entries[..i];
      var curFit := fits[entries[i]];
      if curFit > bestFit {
        bestFit := curFit;
        bestId := entries[i];
        bi := i;
      }
    }
    assert entries[..|entries|] == entries;
  }

  /**
   * The tournament loop of EcoSelect, on fitnesses fixed before it: for each
   * tournament t, entries is refilled with picks[t] (world.GetRandomOrgID()
   * for every entry, not part of this model) and its first maximal entry
   * reproduces once.
   */
  method RunTournaments(fits: seq<real>, tSize: nat, picks: seq<seq<nat>>) returns (births: seq<Birth>)
    requires tSize > 0
    requires forall t :: 0 <= t < |picks| ==> |picks[t]| == tSize && InRange(|fits|, picks[t])
    ensures births == TournamentRun(fits, picks)
    ensures |births| == |picks|
    ensures forall t :: 0 <= t < |picks| ==>
              births[t].count == 1 && births[t].parent in picks[t] &&
              forall k :: 0 <= k < tSize ==> fits[picks[t][k]] <= fits[births[t].parent]
  {
    births := [];
    for t := 0 to |picks|
      invariant |births| == t
      invariant forall s :: 0 <= s < t ==> births[s] == Birth(Winner(fits, picks[s]), 1)
      invariant forall s :: 0 <= s < t ==>
                  births[s].parent in picks[s] &&
                  forall k :: 0 <= k < tSize ==> fits[picks[s][k]] <= fits[births[s].parent]
    {
      var entries := DrawEntries(picks[t]);
      var bestId := TournamentWinner(fits, entries);
      births := births + [Birth(bestId, 1)];
    }
  }

  /** entries.resize(0), then one push_back per world.GetRandomOrgID() of the tournament. */
  method DrawEntries(pick: seq<nat>) returns (entries: seq<nat>)
    ensures entries == pick
  {
    entries := [];
    for i := 0 to |pick|
      invariant entries == pick[..i]
    {
      entries := entries + [pick[i]];
    }
  }

  /**
   * TournamentSelect(world, t_size, tourny_count): tournaments on
   * CalcFitnessID.  picks[t] are the ids world.GetRandomOrgID() returns for
   * tournament t; offspring[t] is the slot DoBirth places tournament t's
   * offspring in and offspringFitness[t] its CalcFitnessID.
   */
  method TournamentSelect<G>(w: World<G>, tSize: nat, tournyCount: nat, picks: seq<seq<nat>>,
                             synchronous: bool, offspring: seq<nat>, offspringFitness: seq<real>)
    returns (births: seq<Birth>)
    requires w.Valid() && tSize > 0 && tournyCount > 0
    requires |picks| == tournyCount
    requires forall t :: 0 <= t < tournyCount ==> |picks[t]| == tSize && InRange(|w.fitness|, picks[t])
    requires |offspring| == tournyCount && |offspringFitness| == tournyCount
    requires forall t :: 0 <= t < tournyCount ==> offspring[t] < |w.fitness|
    ensures births == TournamentRunAfter(w.fitness, synchronous, offspring, offspringFitness, picks, tournyCount)
    ensures synchronous ==> births == TournamentRun(w.fitness, picks)
    ensures |births| == tournyCount
    ensures forall t :: 0 <= t < tournyCount ==>
              var fits := FitnessAfter(w.fitness, synchronous, offspring, offspringFitness, t);
              births[t].count == 1 && births[t].parent in picks[t] &&
              forall k :: 0 <= k < tSize ==> fits[picks[t][k]] <= fits[births[t].parent]
  {
    assert RunArgs(w.fitness, offspring, offspringFitness, picks);
    var fits := w.fitness;
    births := [];
    for t := 0 to tournyCount
      invariant fits == FitnessAfter(w.fitness, synchronous, offspring, offspringFitness, t)
      invariant births == TournamentRunAfter(w.fitness, synchronous, offspring, offspringFitness, picks, t)
    {
      var entries := DrawEntries(picks[t]);
      var bestId := TournamentWinner(fits, entries);
      FitnessAfterStep(w.fitness, synchronous, offspring, offspringFitness, t);
      births := births + [Birth(bestId, 1)];
      if !synchronous {
        fits := fits[offspring[t] := offspringFitness[t]];
      }
    }
    RunAfterAllWinners(w.fitness, synchronous, offspring, offspringFitness, picks);
    if synchronous {
      SynchronousRunIsSnapshot(w.fitness, offspring, offspringFitness, picks);
    }
  }
}
