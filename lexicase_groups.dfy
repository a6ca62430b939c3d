/**
 * The first two phases of LexicaseSelect (source/Evolve/World_select.h):
 * occupied slots are grouped by genome (genotype_counts maps a genome to the
 * index of its list in genotype_lists), and every fitness function is
 * evaluated once per genotype, on the first member of its list.
 */
module LexicaseGroups {
  import opened WorldModel

  /** genotype_counts and genotype_lists. */
  datatype Grouping<G> = Grouping(index: map<G, nat>, lists: seq<seq<nat>>)

  /** Every genome in the map names one of the lists. */
  predicate IndexInRange<G>(gr: Grouping<G>)
  {
    forall k :: k in gr.index ==> gr.index[k] < |gr.lists|
  }

  /**
   * Every list is a non-empty, strictly increasing run of occupied ids below n
   * sharing one genome (so its first member is the genotype's first slot and
   * no slot repeats), and the lists are ordered by first member.
   */
  ghost predicate ListsBelow<G>(w: World<G>, L: seq<seq<nat>>, n: nat)
    requires w.Valid() && n <= w.Size()
  {
    && (forall g :: 0 <= g < |L| ==> |L[g]| > 0 && L[g][0] < n)
    && (forall g, k :: 0 <= g < |L| && 0 <= k < |L[g]| ==>
          L[g][k] < n && w.occupied[L[g][k]] && w.genomes[L[g][k]] == w.genomes[L[g][0]])
    && (forall g, h :: 0 <= g < h < |L| ==> L[g][0] < L[h][0])
    && (forall g, i, j :: 0 <= g < |L| && 0 <= i < j < |L[g]| ==> L[g][i] < L[g][j])
  }

  /** The map sends each list's genome to that list, and only those genomes are keys. */
  ghost predicate IndexMatches<G>(w: World<G>, gr: Grouping<G>)
    requires w.Valid() && IndexInRange(gr)
    requires forall g :: 0 <= g < |gr.lists| ==> |gr.lists[g]| > 0 && gr.lists[g][0] < |w.genomes|
  {
    && (forall g :: 0 <= g < |gr.lists| ==>
          w.genomes[gr.lists[g][0]] in gr.index && gr.index[w.genomes[gr.lists[g][0]]] == g)
    && (forall k :: k in gr.index ==> w.genomes[gr.lists[gr.index[k]][0]] == k)
  }

  /** Every occupied id below n is in the list of its genome. */
  ghost predicate CoversBelow<G>(w: World<G>, gr: Grouping<G>, n: nat)
    requires w.Valid() && n <= w.Size() && IndexInRange(gr)
  {
    forall q :: 0 <= q < n && w.occupied[q] ==>
      w.genomes[q] in gr.index && q in gr.lists[gr.index[w.genomes[q]]]
  }

  /** No list is empty. */
  predicate NonEmptyLists(lists: seq<seq<nat>>)
  {
    forall g :: 0 <= g < |lists| ==> |lists[g]| > 0
  }

  /** What the grouping loop has established after the slots below n. */
  ghost predicate GroupedBelow<G>(w: World<G>, gr: Grouping<G>, n: nat)
    requires w.Valid() && n <= w.Size()
  {
    && IndexInRange(gr)
    && ListsBelow(w, gr.lists, n)
    && IndexMatches(w, gr)
    && CoversBelow(w, gr, n)
  }

  /** The grouping after one more slot. */
  function GroupStep<G(==)>(w: World<G>, gr: Grouping<G>, id: nat): (gr': Grouping<G>)
    requires w.Valid() && id < w.Size() && IndexInRange(gr) && NonEmptyLists(gr.lists)
    ensures IndexInRange(gr') && NonEmptyLists(gr'.lists)
  {
    if !w.occupied[id] then gr
    else
      var gen := w.genomes[id];
      if gen in gr.index then
        var g := gr.index[gen];
        Grouping(gr.index, gr.lists[g := gr.lists[g] + [id]])
      else
        Grouping(gr.index[gen := |gr.lists|], gr.lists + [[id]])
  }

  /** The grouping of the slots below n, in id order. */
  function Groups<G(==)>(w: World<G>, n: nat): (gr: Grouping<G>)
    requires w.Valid() && n <= w.Size()
    ensures IndexInRange(gr) && NonEmptyLists(gr.lists)
  {
    if n == 0 then Grouping(map[], [])
    else GroupStep(w, Groups(w, n - 1), n - 1)
  }

  /** The grouping of the slots below n satisfies everything the loop promises. */
  lemma {:induction false} GroupsGrouped<G>(w: World<G>, n: nat)
    requires w.Valid() && n <= w.Size()
    ensures GroupedBelow(w, Groups(w, n), n)
  {
    if n == 0 {
      EmptyGrouped(w);
    } else {
      GroupsGrouped(w, n - 1);
      GroupStepKeeps(w, Groups(w, n - 1), n - 1, Groups(w, n));
    }
  }

  /** Before any slot, the empty grouping. */
  lemma EmptyGrouped<G>(w: World<G>)
    requires w.Valid()
    ensures GroupedBelow(w, Groups(w, 0), 0)
  {
    assert Groups(w, 0) == Grouping(map[], []);
  }

  /** One step of the grouping loop extends GroupedBelow by one slot. */
  lemma GroupStepKeeps<G>(w: World<G>, gr: Grouping<G>, id: nat, gr': Grouping<G>)
    requires w.Valid() && id < w.Size() && GroupedBelow(w, gr, id)
    requires gr' == GroupStep(w, gr, id)
    ensures GroupedBelow(w, gr', id + 1)
  {
    if !w.occupied[id] {
      assert gr' == gr;
      SkipKeeps(w, gr, id);
    } else if w.genomes[id] in gr.index {
      AppendListsBelow(w, gr, id);
      AppendIndexMatches(w, gr, id);
      AppendCovers(w, gr, id);
    } else {
      NewListsBelow(w, gr, id);
      NewIndexMatches(w, gr, id);
      NewCovers(w, gr, id);
    }
  }

  /** An empty slot leaves the grouping as it was, and still grouped one slot further. */
  lemma SkipKeeps<G>(w: World<G>, gr: Grouping<G>, id: nat)
    requires w.Valid() && id < w.Size() && GroupedBelow(w, gr, id)
    requires !w.occupied[id]
    ensures ListsBelow(w, gr.lists, id + 1) && CoversBelow(w, gr, id + 1)
  {
  }

  lemma AppendListsBelow<G>(w: World<G>, gr: Grouping<G>, id: nat)
    requires w.Valid() && id < w.Size() && GroupedBelow(w, gr, id)
    requires w.occupied[id] && w.genomes[id] in gr.index
    ensures ListsBelow(w, GroupStep(w, gr, id).lists, id + 1)
  {
    var g := gr.index[w.genomes[id]];
    var L' := gr.lists[g := gr.lists[g] + [id]];
    assert L' == GroupStep(w, gr, id).lists;
    assert w.genomes[gr.lists[g][0]] == w.genomes[id];
    forall h, k | 0 <= h < |L'| && 0 <= k < |L'[h]|
      ensures L'[h][k] < id + 1 && w.occupied[L'[h][k]] && w.genomes[L'[h][k]] == w.genomes[L'[h][0]]
    {
      if h == g && k == |gr.lists[g]| {
        assert L'[h][k] == id;
      } else {
        assert L'[h][k] == gr.lists[h][k];
      }
    }
  }

  lemma AppendIndexMatches<G>(w: World<G>, gr: Grouping<G>, id: nat)
    requires w.Valid() && id < w.Size() && GroupedBelow(w, gr, id)
    requires w.occupied[id] && w.genomes[id] in gr.index
    ensures IndexMatches(w, GroupStep(w, gr, id))
  {
    var g := gr.index[w.genomes[id]];
    var L' := gr.lists[g := gr.lists[g] + [id]];
    assert L' == GroupStep(w, gr, id).lists;
    assert forall h :: 0 <= h < |L'| ==> L'[h][0] == gr.lists[h][0];
  }

  lemma AppendCovers<G>(w: World<G>, gr: Grouping<G>, id: nat)
    requires w.Valid() && id < w.Size() && GroupedBelow(w, gr, id)
    requires w.occupied[id] && w.genomes[id] in gr.index
    ensures CoversBelow(w, GroupStep(w, gr, id), id + 1)
  {
    var g := gr.index[w.genomes[id]];
    var L' := gr.lists[g := gr.lists[g] + [id]];
    assert L' == GroupStep(w, gr, id).lists;
    forall q | 0 <= q < id + 1 && w.occupied[q]
      ensures q in L'[gr.index[w.genomes[q]]]
    {
      var h := gr.index[w.genomes[q]];
      if q < id {
        assert q in gr.lists[h];
      }
      if h == g {
        assert L'[h] == gr.lists[h] + [id];
      } else {
        assert L'[h] == gr.lists[h];
      }
    }
  }

  lemma NewListsBelow<G>(w: World<G>, gr: Grouping<G>, id: nat)
    requires w.Valid() && id < w.Size() && GroupedBelow(w, gr, id)
    requires w.occupied[id] && w.genomes[id] !in gr.index
    ensures ListsBelow(w, GroupStep(w, gr, id).lists, id + 1)
  {
    var L' := gr.lists + [[id]];
    assert L' == GroupStep(w, gr, id).lists;
    assert forall h :: 0 <= h < |gr.lists| ==> L'[h] == gr.lists[h];
  }

  lemma NewIndexMatches<G>(w: World<G>, gr: Grouping<G>, id: nat)
    requires w.Valid() && id < w.Size() && GroupedBelow(w, gr, id)
    requires w.occupied[id] && w.genomes[id] !in gr.index
    ensures ListsBelow(w, GroupStep(w, gr, id).lists, id + 1)
    ensures IndexMatches(w, GroupStep(w, gr, id))
  {
    NewListsBelow(w, gr, id);
    var gen := w.genomes[id];
    var L' := gr.lists + [[id]];
    var index' := gr.index[gen := |gr.lists|];
    assert Grouping(index', L') == GroupStep(w, gr, id);
    assert forall h :: 0 <= h < |gr.lists| ==> L'[h] == gr.lists[h];
    forall k | k in index'
      ensures w.genomes[L'[index'[k]][0]] == k
    {
      if k != gen {
        assert index'[k] == gr.index[k];
      }
    }
  }

  lemma NewCovers<G>(w: World<G>, gr: Grouping<G>, id: nat)
    requires w.Valid() && id < w.Size() && GroupedBelow(w, gr, id)
    requires w.occupied[id] && w.genomes[id] !in gr.index
    ensures CoversBelow(w, GroupStep(w, gr, id), id + 1)
  {
    var gen := w.genomes[id];
    var L' := gr.lists + [[id]];
    var index' := gr.index[gen := |gr.lists|];
    assert Grouping(index', L') == GroupStep(w, gr, id);
    forall q | 0 <= q < id + 1 && w.occupied[q]
      ensures w.genomes[q] in index' && q in L'[index'[w.genomes[q]]]
    {
      if q < id {
        var h := gr.index[w.genomes[q]];
        assert q in gr.lists[h];
        assert L'[h] == gr.lists[h];
      }
    }
  }

  /** Every occupied slot lies in exactly one list: the one of its genome. */
  lemma GroupsPartition<G>(w: World<G>, q: nat, g: nat)
    requires w.Valid() && q < w.Size() && w.occupied[q]
    requires g < |Groups(w, w.Size()).lists|
    ensures GroupedBelow(w, Groups(w, w.Size()), w.Size())
    ensures var gr := Groups(w, w.Size());
            q in gr.lists[g] <==> w.genomes[q] in gr.index && g == gr.index[w.genomes[q]]
  {
    GroupsGrouped(w, w.Size());
    var gr := Groups(w, w.Size());
    if q in gr.lists[g] {
      var k :| 0 <= k < |gr.lists[g]| && gr.lists[g][k] == q;
      assert w.genomes[q] == w.genomes[gr.lists[g][0]];
    }
  }

  /** The first member of a list is the lowest occupied slot of its genotype. */
  lemma FirstMemberIsFirstSlot<G>(w: World<G>, g: nat)
    requires w.Valid() && g < |Groups(w, w.Size()).lists|
    ensures var first := Groups(w, w.Size()).lists[g][0];
            && first < w.Size() && w.occupied[first]
            && forall q :: 0 <= q < w.Size() && w.occupied[q] && w.genomes[q] == w.genomes[first] ==> first <= q
  {
    GroupsGrouped(w, w.Size());
    var gr := Groups(w, w.Size());
    forall q | 0 <= q < w.Size() && w.occupied[q] && w.genomes[q] == w.genomes[gr.lists[g][0]]
      ensures gr.lists[g][0] <= q
    {
      assert q in gr.lists[gr.index[w.genomes[q]]];
      var k :| 0 <= k < |gr.lists[g]| && gr.lists[g][k] == q;
    }
  }

  /** The number of occupied slots below n whose genome is gen. */
  function CountGenome<G(==)>(w: World<G>, gen: G, n: nat): (c: nat)
    requires w.Valid() && n <= w.Size()
    ensures c <= n
  {
    if n == 0 then 0
    else CountGenome(w, gen, n - 1) + (if w.occupied[n - 1] && w.genomes[n - 1] == gen then 1 else 0)
  }

  /** A genome carried by no occupied slot below n has count 0. */
  lemma {:induction false} CountGenomeNone<G>(w: World<G>, gen: G, n: nat)
    requires w.Valid() && n <= w.Size()
    requires forall q :: 0 <= q < n && w.occupied[q] ==> w.genomes[q] != gen
    ensures CountGenome(w, gen, n) == 0
  {
    if n > 0 {
      CountGenomeNone(w, gen, n - 1);
    }
  }

  /**
   * The list of a genotype holds as many ids as there are organisms of that
   * genotype: the weight the winner draw gives a surviving genotype.
   */
  lemma {:induction false} ListSizeCountsOrganisms<G>(w: World<G>, n: nat, gen: G)
    requires w.Valid() && n <= w.Size()
    requires gen in Groups(w, n).index
    ensures |Groups(w, n).lists[Groups(w, n).index[gen]]| == CountGenome(w, gen, n)
  {
    var prev := Groups(w, n - 1);
    var id := n - 1;
    assert Groups(w, n) == GroupStep(w, prev, id);
    if w.occupied[id] {
      var gen' := w.genomes[id];
      GroupsGrouped(w, id);
      if gen' in prev.index {
        ListSizeCountsOrganisms(w, id, gen);
        if gen != gen' {
          assert w.genomes[prev.lists[prev.index[gen]][0]] == gen;
        }
      } else if gen == gen' {
        CountGenomeNone(w, gen, id);
      } else {
        ListSizeCountsOrganisms(w, id, gen);
      }
    } else {
      ListSizeCountsOrganisms(w, id, gen);
    }
  }

  /**
   * The grouping loop of LexicaseSelect.  The source's genotype_counts is a
   * std::map<genome, int>; here it is a map to list indices.
   */
  method GroupGenotypes<G(==)>(w: World<G>) returns (genotypeCounts: map<G, nat>, genotypeLists: seq<seq<nat>>)
    requires w.Valid()
    ensures Grouping(genotypeCounts, genotypeLists) == Groups(w, w.Size())
    ensures GroupedBelow(w, Grouping(genotypeCounts, genotypeLists), w.Size())
  {
    genotypeCounts := map[];
    genotypeLists := [];
    for orgId := 0 to w.Size()
      invariant Grouping(genotypeCounts, genotypeLists) == Groups(w, orgId)
    {
      if w.occupied[orgId] {
        var gen := w.genomes[orgId];
        if gen in genotypeCounts {
          var g := genotypeCounts[gen];
          genotypeLists := genotypeLists[g := genotypeLists[g] + [orgId]];
        } else {
          genotypeCounts := genotypeCounts[gen := |genotypeLists|];
          genotypeLists := genotypeLists + [[orgId]];
        }
      }
    }
    GroupsGrouped(w, w.Size());
  }

  /** fitnesses[f][g]: fit_funs[f] applied to the organism at the first id of list g. */
  predicate IsFitnessTable(fitFuns: seq<nat -> real>, lists: seq<seq<nat>>, table: seq<seq<real>>)
    requires NonEmptyLists(lists)
  {
    && |table| == |fitFuns|
    && (forall f :: 0 <= f < |fitFuns| ==> |table[f]| == |lists|)
    && (forall f, g :: 0 <= f < |fitFuns| && 0 <= g < |lists| ==> table[f][g] == fitFuns[f](lists[g][0]))
  }

  /**
   * The memoisation loop: each fitness function once per genotype.  A
   * fitness function is modelled as a function of the slot id whose
   * organism it is applied to.
   */
  method FitnessTable(fitFuns: seq<nat -> real>, lists: seq<seq<nat>>) returns (fitnesses: seq<seq<real>>)
    requires NonEmptyLists(lists)
    ensures IsFitnessTable(fitFuns, lists, fitnesses)
  {
    fitnesses := seq(|fitFuns|, _ => []);
    for fitId := 0 to |fitFuns|
      invariant |fitnesses| == |fitFuns|
      invariant forall f :: 0 <= f < fitId ==> |fitnesses[f]| == |lists|
      invariant forall f, g :: 0 <= f < fitId && 0 <= g < |lists| ==> fitnesses[f][g] == fitFuns[f](lists[g][0])
    {
      var row := seq(|lists|, _ => 0.0);
      for id := 0 to |lists|
        invariant |row| == |lists|
        invariant forall g :: 0 <= g < id ==> row[g] == fitFuns[fitId](lists[g][0])
      {
        row := row[id := fitFuns[fitId](lists[id][0])];
      }
      fitnesses := fitnesses[fitId := row];
    }
  }
}
