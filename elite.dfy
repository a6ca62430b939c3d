/**
 * EliteSelect (source/Evolve/World_select.h): the e_count best occupied
 * organisms each reproduce copy_count times, best first.  The ranking goes
 * through a std::multimap<double, size_t> from fitness to id, modelled as a
 * sequence of (fitness, id) pairs in the multimap's iteration order.
 */
module EliteSelection {
  import opened WorldModel

  /** A (fitness, slot id) pair of the fitness multimap. */
  type Entry = (real, nat)

  /** a comes before b in iteration order: lower fitness, or equal fitness and inserted earlier (lower id). */
  predicate Before(a: Entry, b: Entry)
  {
    a.0 < b.0 || (a.0 == b.0 && a.1 < b.1)
  }

  /** Keys never decrease along the multimap. */
  predicate KeyOrdered(m: seq<Entry>)
  {
    forall i, j :: 0 <= i < j < |m| ==> m[i].0 <= m[j].0
  }

  /** The multimap as built by EliteSelect: strictly ordered by Before. */
  predicate StrictlyOrdered(m: seq<Entry>)
  {
    forall i, j :: 0 <= i < j < |m| ==> Before(m[i], m[j])
  }

  /** Organism a is handed out before organism b by the reverse walk: fitter, or as fit with a higher id. */
  predicate RanksAbove<G>(w: World<G>, a: nat, b: nat)
    requires w.Valid() && a < w.Size() && b < w.Size()
  {
    Before((w.fitness[b], b), (w.fitness[a], a))
  }

  /**
   * multimap::insert: the new pair goes at the end of the range of equal
   * keys, after every pair whose key is not greater.
   */
  method MultimapInsert(m: seq<Entry>, key: real, val: nat) returns (m': seq<Entry>, pos: nat)
    requires KeyOrdered(m)
    ensures pos <= |m| && m' == m[..pos] + [(key, val)] + m[pos..]
    ensures forall i :: 0 <= i < pos ==> m[i].0 <= key
    ensures forall i :: pos <= i < |m| ==> m[i].0 > key
  {
    pos := 0;
    while pos < |m| && m[pos].0 <= key
      invariant pos <= |m|
      invariant forall i :: 0 <= i < pos ==> m[i].0 <= key
    {
      pos := pos + 1;
    }
    m' := m[..pos] + [(key, val)] + m[pos..];
  }

  /** Inserting a pair with a new largest id at its upper bound keeps the multimap strictly ordered. */
  lemma InsertKeepsOrder(m: seq<Entry>, pos: nat, e: Entry)
    requires StrictlyOrdered(m) && pos <= |m|
    requires forall i :: 0 <= i < |m| ==> m[i].1 < e.1
    requires forall i :: 0 <= i < pos ==> m[i].0 <= e.0
    requires forall i :: pos <= i < |m| ==> m[i].0 > e.0
    ensures StrictlyOrdered(m[..pos] + [e] + m[pos..])
  {
    var m' := m[..pos] + [e] + m[pos..];
    forall i, j | 0 <= i < j < |m'|
      ensures Before(m'[i], m'[j])
    {
      var a := if i < pos then i else i - 1;
      var b := if j <= pos then j else j - 1;
      if i == pos {
        assert m'[j] == m[b];
      } else if j == pos {
        assert m'[i] == m[a];
      } else {
        assert m'[i] == m[a] && m'[j] == m[b] && a < b;
      }
    }
  }

  /** Every pair names an occupied slot below `bound` with that slot's fitness. */
  predicate EntriesBelow<G>(w: World<G>, m: seq<Entry>, bound: nat)
    requires w.Valid() && bound <= w.Size()
  {
    forall k :: 0 <= k < |m| ==> m[k].1 < bound && w.occupied[m[k].1] && m[k].0 == w.fitness[m[k].1]
  }

  /** Every occupied slot below `bound` has its pair in m. */
  predicate CoversBelow<G>(w: World<G>, m: seq<Entry>, bound: nat)
    requires w.Valid() && bound <= w.Size()
  {
    forall q :: 0 <= q < bound && w.occupied[q] ==> (w.fitness[q], q) in m
  }

  lemma InsertEntries<G>(w: World<G>, fitMap: seq<Entry>, id: nat, pos: nat)
    requires w.Valid() && id < w.Size() && w.occupied[id] && pos <= |fitMap|
    requires EntriesBelow(w, fitMap, id)
    ensures EntriesBelow(w, fitMap[..pos] + [(w.fitness[id], id)] + fitMap[pos..], id + 1)
  {
    var m' := fitMap[..pos] + [(w.fitness[id], id)] + fitMap[pos..];
    forall k | 0 <= k < |m'|
      ensures m'[k].1 < id + 1 && w.occupied[m'[k].1] && m'[k].0 == w.fitness[m'[k].1]
    {
      if k < pos {
        assert m'[k] == fitMap[k];
      } else if k > pos {
        assert m'[k] == fitMap[k - 1];
      }
    }
  }

  lemma InsertCovers<G>(w: World<G>, fitMap: seq<Entry>, id: nat, pos: nat)
    requires w.Valid() && id < w.Size() && pos <= |fitMap|
    requires CoversBelow(w, fitMap, id)
    ensures CoversBelow(w, fitMap[..pos] + [(w.fitness[id], id)] + fitMap[pos..], id + 1)
  {
    var m' := fitMap[..pos] + [(w.fitness[id], id)] + fitMap[pos..];
    forall q | 0 <= q < id + 1 && w.occupied[q]
      ensures (w.fitness[q], q) in m'
    {
      if q < id {
        var j :| 0 <= j < |fitMap| && fitMap[j] == (w.fitness[q], q);
        if j < pos {
          assert m'[j] == fitMap[j];
        } else {
          assert m'[j + 1] == fitMap[j];
        }
      } else {
        assert m'[pos] == (w.fitness[id], id);
      }
    }
  }

  /** After the first id slots: the multimap holds exactly the occupied ones among them, ordered. */
  predicate Loaded<G>(w: World<G>, fitMap: seq<Entry>, id: nat)
    requires w.Valid() && id <= w.Size()
  {
    && StrictlyOrdered(fitMap)
    && |fitMap| == CountTrue(w.occupied[..id])
    && EntriesBelow(w, fitMap, id)
    && CoversBelow(w, fitMap, id)
  }

  /** Inserting occupied slot id at the upper bound of its fitness extends Loaded by one slot. */
  lemma InsertLoaded<G>(w: World<G>, fitMap: seq<Entry>, id: nat, pos: nat)
    requires w.Valid() && id < w.Size() && w.occupied[id] && Loaded(w, fitMap, id)
    requires pos <= |fitMap|
    requires forall i :: 0 <= i < pos ==> fitMap[i].0 <= w.fitness[id]
    requires forall i :: pos <= i < |fitMap| ==> fitMap[i].0 > w.fitness[id]
    ensures Loaded(w, fitMap[..pos] + [(w.fitness[id], id)] + fitMap[pos..], id + 1)
  {
    CountTrueSnoc(w.occupied, id);
    InsertKeepsOrder(fitMap, pos, (w.fitness[id], id));
    InsertEntries(w, fitMap, id, pos);
    InsertCovers(w, fitMap, id, pos);
  }

  /** An empty slot leaves the multimap as it is. */
  lemma SkipLoaded<G>(w: World<G>, fitMap: seq<Entry>, id: nat)
    requires w.Valid() && id < w.Size() && !w.occupied[id] && Loaded(w, fitMap, id)
    ensures Loaded(w, fitMap, id + 1)
  {
    CountTrueSnoc(w.occupied, id);
  }

  /**
   * The first loop of EliteSelect: every occupied slot, in id order, goes
   * into the fitness multimap.
   */
  method LoadFitnessMap<G>(w: World<G>) returns (fitMap: seq<Entry>)
    requires w.Valid()
    ensures StrictlyOrdered(fitMap)
    ensures |fitMap| == w.NumOrgs()
    ensures forall k :: 0 <= k < |fitMap| ==>
              fitMap[k].1 < w.Size() && w.occupied[fitMap[k].1] && fitMap[k].0 == w.fitness[fitMap[k].1]
    ensures forall q :: 0 <= q < w.Size() && w.occupied[q] ==> (w.fitness[q], q) in fitMap
  {
    fitMap := [];
    for id := 0 to w.Size()
      invariant Loaded(w, fitMap, id)
    {
      if w.occupied[id] {
        var fit := w.fitness[id];
        var m', pos := MultimapInsert(fitMap, fit, id);
        InsertLoaded(w, fitMap, id, pos);
        fitMap := m';
      } else {
        SkipLoaded(w, fitMap, id);
      }
    }
    assert w.occupied[..w.Size()] == w.occupied;
  }

  /**
   * EliteSelect(world, e_count, copy_count).  The source asserts
   * 0 < e_count <= GetNumOrgs() and copy_count > 0.
   */
  method EliteSelect<G>(w: World<G>, eCount: nat, copyCount: nat) returns (births: seq<Birth>)
    requires w.Valid() && 0 < eCount <= w.NumOrgs() && copyCount > 0
    ensures |births| == eCount
    ensures forall i :: 0 <= i < eCount ==>
              births[i].count == copyCount && births[i].parent < w.Size() && w.occupied[births[i].parent]
    ensures forall i, j :: 0 <= i < j < eCount ==> RanksAbove(w, births[i].parent, births[j].parent)
    ensures forall q :: (0 <= q < w.Size() && w.occupied[q] &&
                         forall i :: 0 <= i < eCount ==> births[i].parent != q) ==>
              RanksAbove(w, births[eCount - 1].parent, q)
  {
    var fitMap := LoadFitnessMap(w);
    // Walk the multimap from its end, handing out copy_count births per entry.
    var L := |fitMap|;
    var m := L;
    births := [];
    for i := 0 to eCount
      invariant m == L - i
      invariant |births| == i
      invariant forall k :: 0 <= k < i ==> births[k] == Birth(fitMap[L - 1 - k].1, copyCount)
    {
      births := births + [Birth(fitMap[m - 1].1, copyCount)];
      m := m - 1;
    }
    forall q | 0 <= q < w.Size() && w.occupied[q] && (forall i :: 0 <= i < eCount ==> births[i].parent != q)
      ensures RanksAbove(w, births[eCount - 1].parent, q)
    {
      var idx :| 0 <= idx < L && fitMap[idx] == (w.fitness[q], q);
      assert forall k :: L - eCount <= k < L ==> fitMap[k].1 == births[L - 1 - k].parent;
      assert Before(fitMap[idx], fitMap[L - eCount]);
    }
  }
}
