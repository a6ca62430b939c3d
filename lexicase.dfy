/**
 * LexicaseSelect (source/Evolve/World_select.h).  Each reproduction round
 * orders the fitness functions, narrows the genotypes to the best under each
 * criterion in turn until one genotype remains or the criteria run out, and
 * then draws one organism from the lists of the survivors, so a genotype's
 * chance grows with its number of organisms and with how often it survives.
 *
 * The random draws of a round are an input: the permutation GetPermutation
 * returns (not part of this model), the raw values behind GetUInt when fewer
 * criteria than functions are used, and the raw value behind the winner's
 * GetUInt(options).
 */
module LexicaseSelection {
  import opened MiddleSquareWeyl
  import opened WorldModel
  import opened LexicaseGroups
  import opened LexicaseFilter

  /** The random inputs of one round. */
  datatype LexicaseRound = LexicaseRound(permutation: seq<nat>, criterionDraws: seq<u32>, winnerDraw: u32)

  /** One call of TriggerOnLexicaseSelect(world, used, repro_id). */
  datatype LexicaseEvent = LexicaseEvent(used: seq<nat>, reproId: nat)

  /** p lists every index below n exactly once. */
  predicate IsPermutation(p: seq<nat>, n: nat)
  {
    && |p| == n
    && (forall i :: 0 <= i < |p| ==> p[i] < n)
    && (forall i, j :: 0 <= i < j < |p| ==> p[i] != p[j])
  }

  /** max_funs after `if (!max_funs) max_funs = fit_funs.size()`. */
  function EffectiveMaxFuns(maxFuns: nat, numFuns: nat): (m: nat)
    ensures maxFuns == 0 ==> m == numFuns
    ensures maxFuns > 0 ==> m == maxFuns
  {
    if maxFuns == 0 then numFuns else maxFuns
  }

  /** The draws of a round are of the shape the round consumes. */
  predicate RoundFits(round: LexicaseRound, numFuns: nat, maxFuns: nat)
  {
    if maxFuns == numFuns then IsPermutation(round.permutation, numFuns)
    else |round.criterionDraws| == maxFuns
  }

  /** The order of criteria a round tries. */
  function CriterionOrder(round: LexicaseRound, numFuns: nat, maxFuns: nat): (order: seq<nat>)
    requires RoundFits(round, numFuns, maxFuns)
    ensures maxFuns == numFuns ==> IsPermutation(order, numFuns)
    ensures maxFuns != numFuns ==> |order| == maxFuns
    ensures numFuns > 0 ==> forall i :: 0 <= i < |order| ==> order[i] < numFuns
  {
    if maxFuns == numFuns then round.permutation
    else seq(maxFuns, i requires 0 <= i < maxFuns => UIntBelow(round.criterionDraws[i], numFuns))
  }

  /** The order loop: a permutation, or max_funs independent GetUInt(fit_funs.size()) draws. */
  method ChooseOrder(round: LexicaseRound, numFuns: nat, maxFuns: nat) returns (order: seq<nat>)
    requires RoundFits(round, numFuns, maxFuns)
    ensures order == CriterionOrder(round, numFuns, maxFuns)
  {
    if maxFuns == numFuns {
      order := round.permutation;
    } else {
      order := seq(maxFuns, _ => 0);
      for i := 0 to maxFuns
        invariant |order| == maxFuns
        invariant forall k :: 0 <= k < i ==> order[k] == UIntBelow(round.criterionDraws[k], numFuns)
      {
        order := order[i := UIntBelow(round.criterionDraws[i], numFuns)];
      }
    }
  }

  /** all_gens: the indices of the genotype lists. */
  function AllGens(n: nat): (gens: seq<nat>)
    ensures |gens| == n && forall i :: 0 <= i < n ==> gens[i] == i
  {
    seq(n, i => i)
  }

  /** Every row of the table has one value per genotype. */
  predicate TableShape(table: seq<seq<real>>, nGens: nat)
  {
    forall f :: 0 <= f < |table| ==> |table[f]| == nGens
  }

  /** Every criterion of order names a row of the table. */
  predicate OrderIn(order: seq<nat>, n: nat)
  {
    forall i :: 0 <= i < |order| ==> order[i] < n
  }

  /** Preconditions shared by the stage functions. */
  predicate StageArgs(table: seq<seq<real>>, nGens: nat, order: seq<nat>)
  {
    nGens > 0 && TableShape(table, nGens) && OrderIn(order, |table|)
  }

  /** cur_gens after the first t criteria of order. */
  function Stage(table: seq<seq<real>>, nGens: nat, order: seq<nat>, t: nat): (cur: seq<nat>)
    requires StageArgs(table, nGens, order) && t <= |order|
    ensures |cur| > 0 && forall i :: 0 <= i < |cur| ==> cur[i] < nGens
  {
    if t == 0 then AllGens(nGens)
    else
      var prev := Stage(table, nGens, order, t - 1);
      var vals := table[order[t - 1]];
      FilterKeepsTheBest(vals, prev);
      Filter(vals, prev)
  }

  /** Each stage keeps exactly the genotypes of the previous one that are best under its criterion. */
  lemma StageKeepsTheBest(table: seq<seq<real>>, nGens: nat, order: seq<nat>, t: nat)
    requires StageArgs(table, nGens, order) && t < |order|
    ensures var prev := Stage(table, nGens, order, t);
            var vals := table[order[t]];
            forall x :: x in Stage(table, nGens, order, t + 1) <==>
              x in prev && forall y :: y in prev ==> vals[y] <= vals[x]
  {
    var prev := Stage(table, nGens, order, t);
    FilterKeepsTheBest(table[order[t]], prev);
  }

  /** The index of the last criterion tried: the first from t on that leaves one genotype, else the last one. */
  function StopDepth(table: seq<seq<real>>, nGens: nat, order: seq<nat>, t: nat): (d: nat)
    requires StageArgs(table, nGens, order) && t < |order|
    ensures t <= d < |order|
    ensures |Stage(table, nGens, order, d + 1)| == 1 || d == |order| - 1
    decreases |order| - t
  {
    if |Stage(table, nGens, order, t + 1)| == 1 || t == |order| - 1 then t
    else StopDepth(table, nGens, order, t + 1)
  }

  /** No criterion before the last one tried leaves a single genotype: the loop stops at the first that does. */
  lemma {:induction false} StopDepthIsFirst(table: seq<seq<real>>, nGens: nat, order: seq<nat>, t: nat, s: nat)
    requires StageArgs(table, nGens, order) && t < |order|
    requires t < s <= StopDepth(table, nGens, order, t)
    ensures |Stage(table, nGens, order, s)| != 1
    decreases |order| - t
  {
    if s > t + 1 {
      StopDepthIsFirst(table, nGens, order, t + 1, s);
    }
  }

  /** One pass of the criteria loop: criterion order[t] narrows stage t to stage t + 1. */
  method Narrow(table: seq<seq<real>>, nGens: nat, order: seq<nat>, t: nat, cur: seq<nat>) returns (next: seq<nat>)
    requires StageArgs(table, nGens, order) && t < |order|
    requires cur == Stage(table, nGens, order, t)
    ensures next == Stage(table, nGens, order, t + 1)
  {
    var fitId := order[t];
    next := FilterStep(table[fitId], cur);
  }

  /** None of the stages after t and up to d leaves a single genotype. */
  predicate NoSingleUpTo(table: seq<seq<real>>, nGens: nat, order: seq<nat>, t: nat, d: nat)
    requires StageArgs(table, nGens, order) && d <= |order|
  {
    forall s :: t < s <= d ==> |Stage(table, nGens, order, s)| != 1
  }

  /** The depth at which no earlier stage, and either this one or the last, leaves a single genotype is StopDepth. */
  lemma {:induction false} StopDepthFrom(table: seq<seq<real>>, nGens: nat, order: seq<nat>, t: nat, d: nat)
    requires StageArgs(table, nGens, order) && t <= d < |order|
    requires NoSingleUpTo(table, nGens, order, t, d)
    requires |Stage(table, nGens, order, d + 1)| == 1 || d == |order| - 1
    ensures StopDepth(table, nGens, order, t) == d
    decreases d - t
  {
    if t < d {
      assert |Stage(table, nGens, order, t + 1)| != 1;
      StopDepthFrom(table, nGens, order, t + 1, d);
    }
  }

  /** The criteria loop with its early exit; depth is the index of the last criterion applied. */
  method RunCriteria(table: seq<seq<real>>, allGens: seq<nat>, order: seq<nat>) returns (cur: seq<nat>, depth: nat)
    requires StageArgs(table, |allGens|, order) && |order| > 0 && allGens == AllGens(|allGens|)
    ensures depth == StopDepth(table, |allGens|, order, 0)
    ensures cur == Stage(table, |allGens|, order, depth + 1)
    ensures (order[..depth + 1], cur) == RoundSurvivors(table, |allGens|, order)
  {
    var nGens := |allGens|;
    cur := allGens;
    var d: int := -1;
    var i := 0;
    while i < |order|
      invariant 0 <= i <= |order| && d == i - 1
      invariant cur == Stage(table, nGens, order, i)
      invariant NoSingleUpTo(table, nGens, order, 0, i)
    {
      d := d + 1;
      cur := Narrow(table, nGens, order, i, cur);
      if |cur| == 1 {
        break;
      }
      i := i + 1;
    }
    depth := d;
    assert NoSingleUpTo(table, nGens, order, 0, depth);
    StopDepthFrom(table, nGens, order, 0, depth);
    RoundSurvivorsOf(table, nGens, order, depth, cur);
  }

  /** The organisms of the surviving genotypes, list after list, a genotype once per time it survives. */
  function Concat(lists: seq<seq<nat>>, cur: seq<nat>): (ids: seq<nat>)
    requires forall i :: 0 <= i < |cur| ==> cur[i] < |lists|
  {
    if cur == [] then [] else lists[cur[0]] + Concat(lists, cur[1..])
  }

  /** An id is among the options exactly when it lies in the list of some surviving genotype. */
  lemma {:induction false} ConcatMembers(lists: seq<seq<nat>>, cur: seq<nat>, x: nat)
    requires forall i :: 0 <= i < |cur| ==> cur[i] < |lists|
    ensures x in Concat(lists, cur) <==> exists i :: 0 <= i < |cur| && x in lists[cur[i]]
  {
    if cur != [] {
      ConcatMembers(lists, cur[1..], x);
      if exists i :: 0 <= i < |cur| && x in lists[cur[i]] {
        var i :| 0 <= i < |cur| && x in lists[cur[i]];
        if i > 0 {
          assert cur[1..][i - 1] == cur[i];
        }
      }
      assert forall i :: 0 <= i < |cur| - 1 ==> cur[1..][i] == cur[i + 1];
    }
  }

  /** With non-empty lists and at least one survivor there is at least one option. */
  lemma {:induction false} ConcatNonEmpty(lists: seq<seq<nat>>, cur: seq<nat>)
    requires forall i :: 0 <= i < |cur| ==> cur[i] < |lists| && |lists[cur[i]]| > 0
    ensures |Concat(lists, cur)| >= |cur|
  {
    if cur != [] {
      ConcatNonEmpty(lists, cur[1..]);
    }
  }

  /**
   * options and the winner walk: options counts the organisms of the
   * survivors (with repeats) and the walk returns option number
   * GetUInt(options), so it always finds an organism.
   */
  method PickSurvivor(lists: seq<seq<nat>>, cur: seq<nat>, d: u32) returns (options: nat, reproId: nat)
    requires |cur| > 0
    requires forall i :: 0 <= i < |cur| ==> cur[i] < |lists| && |lists[cur[i]]| > 0
    ensures options == |Concat(lists, cur)| && options > 0
    ensures reproId == Concat(lists, cur)[UIntBelow(d, options)]
  {
    options := 0;
    for i := 0 to |cur|
      invariant options + |Concat(lists, cur[i..])| == |Concat(lists, cur)|
    {
      assert cur[i..][1..] == cur[i + 1..];
      options := options + |lists[cur[i]]|;
    }
    assert cur[|cur|..] == [];
    assert cur[0..] == cur;
    ConcatNonEmpty(lists, cur);
    var w0: nat := UIntBelow(d, options);
    var winner: nat := w0;
    var id: int := -1;
    var i := 0;
    // The source walks cur_gens with a break and asserts repro_id != -1
    // afterwards; the bound on winner keeps the walk inside cur_gens.
    while id == -1
      invariant 0 <= i <= |cur|
      invariant id == -1 ==> i < |cur| && winner < |Concat(lists, cur[i..])| &&
                             Concat(lists, cur[i..])[winner] == Concat(lists, cur)[w0]
      invariant id != -1 ==> id == Concat(lists, cur)[w0]
      decreases |cur| - i, if id == -1 then 1 else 0
    {
      assert cur[i..][1..] == cur[i + 1..];
      var gen := cur[i];
      if winner < |lists[gen]| {
        id := lists[gen][winner];
      } else {
        winner := winner - |lists[gen]|;
        i := i + 1;
      }
    }
    reproId := id;
  }

  /** fitnesses: every fitness function on the first organism of every genotype list. */
  function TableOf(fitFuns: seq<nat -> real>, lists: seq<seq<nat>>): (table: seq<seq<real>>)
    requires NonEmptyLists(lists)
    ensures IsFitnessTable(fitFuns, lists, table)
  {
    seq(|fitFuns|, f requires 0 <= f < |fitFuns| =>
      seq(|lists|, g requires 0 <= g < |lists| => fitFuns[f](lists[g][0])))
  }

  /** The table is determined by the functions and the lists. */
  lemma FitnessTableUnique(fitFuns: seq<nat -> real>, lists: seq<seq<nat>>, table: seq<seq<real>>)
    requires NonEmptyLists(lists)
    requires IsFitnessTable(fitFuns, lists, table)
    ensures table == TableOf(fitFuns, lists)
  {
    var t := TableOf(fitFuns, lists);
    forall f | 0 <= f < |fitFuns|
      ensures table[f] == t[f]
    {
    }
  }

  /** The organism GetUInt(options) selects from the options of the survivors cur. */
  function DrawSurvivor(lists: seq<seq<nat>>, cur: seq<nat>, d: u32): (x: nat)
    requires |cur| > 0
    requires forall i :: 0 <= i < |cur| ==> cur[i] < |lists| && |lists[cur[i]]| > 0
    ensures exists i :: 0 <= i < |cur| && x in lists[cur[i]]
  {
    var options := Concat(lists, cur);
    ConcatNonEmpty(lists, cur);
    var x := options[UIntBelow(d, |options|)];
    ConcatMembers(lists, cur, x);
    x
  }

  /** The criteria a round applies and the genotypes that survive them. */
  function RoundSurvivors(table: seq<seq<real>>, nGens: nat, order: seq<nat>): (res: (seq<nat>, seq<nat>))
    requires StageArgs(table, nGens, order) && |order| > 0
    ensures |res.0| > 0 && res.0 <= order
    ensures |res.1| > 0 && forall i :: 0 <= i < |res.1| ==> res.1[i] < nGens
  {
    var d := StopDepth(table, nGens, order, 0);
    (order[..d + 1], Stage(table, nGens, order, d + 1))
  }

  /** The depth and survivors of the criteria loop are what RoundSurvivors names. */
  lemma RoundSurvivorsOf(table: seq<seq<real>>, nGens: nat, order: seq<nat>, depth: nat, cur: seq<nat>)
    requires StageArgs(table, nGens, order) && |order| > 0
    requires depth == StopDepth(table, nGens, order, 0)
    requires cur == Stage(table, nGens, order, depth + 1)
    ensures (order[..depth + 1], cur) == RoundSurvivors(table, nGens, order)
  {
  }

  /** What one round does, given the genotype lists of the world it starts from. */
  function RoundOutcome(lists: seq<seq<nat>>, fitFuns: seq<nat -> real>, maxFuns: nat, round: LexicaseRound)
    : (e: LexicaseEvent)
    requires NonEmptyLists(lists) && |lists| > 0 && |fitFuns| > 0
    requires RoundFits(round, |fitFuns|, EffectiveMaxFuns(maxFuns, |fitFuns|))
    ensures |e.used| > 0 && e.used <= CriterionOrder(round, |fitFuns|, EffectiveMaxFuns(maxFuns, |fitFuns|))
    ensures exists g :: 0 <= g < |lists| && e.reproId in lists[g]
  {
    var table := TableOf(fitFuns, lists);
    var order := CriterionOrder(round, |fitFuns|, EffectiveMaxFuns(maxFuns, |fitFuns|));
    var res := RoundSurvivors(table, |lists|, order);
    var x := DrawSurvivor(lists, res.1, round.winnerDraw);
    LexicaseEvent(res.0, x)
  }

  /**
   * The organism a round picks is occupied and belongs to a genotype that
   * survived every criterion the round applied; those criteria are a
   * non-empty prefix of the round's order.
   */
  lemma RoundOutcomeIsSurvivor<G>(w: World<G>, fitFuns: seq<nat -> real>, maxFuns: nat, round: LexicaseRound)
    requires w.Valid() && |fitFuns| > 0
    requires |Groups(w, w.Size()).lists| > 0
    requires RoundFits(round, |fitFuns|, EffectiveMaxFuns(maxFuns, |fitFuns|))
    ensures var gr := Groups(w, w.Size());
            var e := RoundOutcome(gr.lists, fitFuns, maxFuns, round);
            var order := CriterionOrder(round, |fitFuns|, EffectiveMaxFuns(maxFuns, |fitFuns|));
            var res := RoundSurvivors(TableOf(fitFuns, gr.lists), |gr.lists|, order);
            && e.used == res.0 && |e.used| > 0 && e.used <= order
            && (exists i :: 0 <= i < |res.1| && e.reproId in gr.lists[res.1[i]])
            && e.reproId < w.Size() && w.occupied[e.reproId]
  {
    var gr := Groups(w, w.Size());
    var order := CriterionOrder(round, |fitFuns|, EffectiveMaxFuns(maxFuns, |fitFuns|));
    var res := RoundSurvivors(TableOf(fitFuns, gr.lists), |gr.lists|, order);
    var x := DrawSurvivor(gr.lists, res.1, round.winnerDraw);
    assert RoundOutcome(gr.lists, fitFuns, maxFuns, round) == LexicaseEvent(res.0, x);
    GroupsGrouped(w, w.Size());
    var i :| 0 <= i < |res.1| && x in gr.lists[res.1[i]];
    var k :| 0 <= k < |gr.lists[res.1[i]]| && gr.lists[res.1[i]][k] == x;
    assert ListsBelow(w, gr.lists, w.Size());
  }

  /** A round's event appended to the events of the earlier rounds. */
  lemma EventsExtend(lists: seq<seq<nat>>, fitFuns: seq<nat -> real>, maxFuns: nat, rounds: seq<LexicaseRound>,
                     events: seq<LexicaseEvent>, e: LexicaseEvent)
    requires NonEmptyLists(lists) && |lists| > 0 && |fitFuns| > 0
    requires forall r :: 0 <= r < |rounds| ==> RoundFits(rounds[r], |fitFuns|, EffectiveMaxFuns(maxFuns, |fitFuns|))
    requires |events| < |rounds|
    requires forall r :: 0 <= r < |events| ==> events[r] == RoundOutcome(lists, fitFuns, maxFuns, rounds[r])
    requires e == RoundOutcome(lists, fitFuns, maxFuns, rounds[|events|])
    ensures forall r :: 0 <= r < |events| + 1 ==> (events + [e])[r] == RoundOutcome(lists, fitFuns, maxFuns, rounds[r])
  {
  }

  /** What LexicaseSelect computes once before its repro loop. */
  predicate Prepared(fitFuns: seq<nat -> real>, maxFuns: nat, genotypeLists: seq<seq<nat>>,
                     fitnesses: seq<seq<real>>, allGens: seq<nat>, mf: nat)
  {
    && |fitFuns| > 0 && NonEmptyLists(genotypeLists) && |genotypeLists| > 0
    && fitnesses == TableOf(fitFuns, genotypeLists)
    && allGens == AllGens(|genotypeLists|)
    && mf == EffectiveMaxFuns(maxFuns, |fitFuns|)
  }

  /** The body of the repro loop: one round, from the precomputed grouping and fitness table. */
  method ReproduceOnce(fitFuns: seq<nat -> real>, maxFuns: nat, round: LexicaseRound,
                       genotypeLists: seq<seq<nat>>, fitnesses: seq<seq<real>>, allGens: seq<nat>, mf: nat)
    returns (event: LexicaseEvent)
    requires Prepared(fitFuns, maxFuns, genotypeLists, fitnesses, allGens, mf)
    requires RoundFits(round, |fitFuns|, mf)
    ensures event == RoundOutcome(genotypeLists, fitFuns, maxFuns, round)
  {
    var order := ChooseOrder(round, |fitFuns|, mf);
    assert StageArgs(fitnesses, |genotypeLists|, order);
    var cur, depth := RunCriteria(fitnesses, allGens, order);
    var options, reproId := PickSurvivor(genotypeLists, cur, round.winnerDraw);
    var used := order[..depth + 1];
    assert reproId == DrawSurvivor(genotypeLists, cur, round.winnerDraw);
    event := LexicaseEvent(used, reproId);
  }

  /**
   * LexicaseSelect(world, fit_funs, repro_count, max_funs).  ok is false
   * when a round starts with no genotype at all (no occupied slot), where
   * the source would read cur_gens[0] of an empty vector.
   */
  method LexicaseSelect<G(==)>(w: World<G>, fitFuns: seq<nat -> real>, reproCount: nat, maxFuns: nat,
                               rounds: seq<LexicaseRound>)
    returns (events: seq<LexicaseEvent>, births: seq<Birth>, ok: bool)
    requires w.Valid() && w.Size() > 0 && |fitFuns| > 0
    requires |rounds| == reproCount
    requires forall r :: 0 <= r < reproCount ==>
               RoundFits(rounds[r], |fitFuns|, EffectiveMaxFuns(maxFuns, |fitFuns|))
    ensures ok <==> reproCount == 0 || |Groups(w, w.Size()).lists| > 0
    ensures ok ==> |events| == reproCount && |births| == reproCount
    ensures !ok ==> events == [] && births == []
    ensures ok && reproCount > 0 ==> var lists := Groups(w, w.Size()).lists;
              forall r :: 0 <= r < reproCount ==> events[r] == RoundOutcome(lists, fitFuns, maxFuns, rounds[r])
    ensures forall r :: 0 <= r < |births| ==> r < |events| && births[r] == Birth(events[r].reproId, 1)
  {
    var genotypeCounts, genotypeLists := GroupGenotypes(w);
    var nGens := |genotypeLists|;
    var allGens := seq(nGens, _ => 0);
    for i := 0 to nGens
      invariant |allGens| == nGens
      invariant forall k :: 0 <= k < i ==> allGens[k] == k
    {
      allGens := allGens[i := i];
    }
    assert allGens == AllGens(nGens);
    var numFuns := |fitFuns|;
    var mf := maxFuns;
    if mf == 0 {
      mf := numFuns;
    }
    var fitnesses := FitnessTable(fitFuns, genotypeLists);
    FitnessTableUnique(fitFuns, genotypeLists, fitnesses);
    if nGens == 0 {
      events, births, ok := [], [], reproCount == 0;
    } else {
      events, births := ReproduceAll(fitFuns, maxFuns, rounds, genotypeLists, fitnesses, allGens, mf);
      ok := true;
    }
  }

  /** The repro loop of LexicaseSelect, once there is at least one genotype. */
  method ReproduceAll(fitFuns: seq<nat -> real>, maxFuns: nat, rounds: seq<LexicaseRound>,
                      genotypeLists: seq<seq<nat>>, fitnesses: seq<seq<real>>, allGens: seq<nat>, mf: nat)
    returns (events: seq<LexicaseEvent>, births: seq<Birth>)
    requires Prepared(fitFuns, maxFuns, genotypeLists, fitnesses, allGens, mf)
    requires forall r :: 0 <= r < |rounds| ==> RoundFits(rounds[r], |fitFuns|, mf)
    ensures |events| == |births| == |rounds|
    ensures forall r :: 0 <= r < |rounds| ==> events[r] == RoundOutcome(genotypeLists, fitFuns, maxFuns, rounds[r])
    ensures forall r :: 0 <= r < |births| ==> births[r] == Birth(events[r].reproId, 1)
  {
    events := [];
    births := [];
    for repro := 0 to |rounds|
      invariant |events| == |births| == repro
      invariant forall r :: 0 <= r < repro ==> events[r] == RoundOutcome(genotypeLists, fitFuns, maxFuns, rounds[r])
      invariant forall r :: 0 <= r < repro ==> births[r] == Birth(events[r].reproId, 1)
    {
      var event := ReproduceOnce(fitFuns, maxFuns, rounds[repro], genotypeLists, fitnesses, allGens, mf);
      EventsExtend(genotypeLists, fitFuns, maxFuns, rounds, events, event);
      events := events + [event];
      births := births + [Birth(event.reproId, 1)];
    }
  }
}
