/**
 * One filtering step of LexicaseSelect (source/Evolve/World_select.h): the
 * surviving genotypes cur_gens are narrowed to those with the best value
 * under the current criterion.  The scan starts with next_gens holding
 * cur_gens[0] and then visits every entry of cur_gens, cur_gens[0]
 * included, so a leading genotype that ties the maximum is kept twice.
 */
module LexicaseFilter {

  /** Every entry of s is an index into vals. */
  predicate IdsIn(vals: seq<real>, s: seq<nat>)
  {
    forall i :: 0 <= i < |s| ==> s[i] < |vals|
  }

  /**
   * (max_fit, next_gens) after the scan has visited the first n entries of
   * cur: a larger value restarts next_gens with that entry, an equal one is
   * appended, a smaller one is skipped.
   */
  function Scan(vals: seq<real>, cur: seq<nat>, n: nat): (real, seq<nat>)
    requires |cur| > 0 && IdsIn(vals, cur) && n <= |cur|
  {
    if n == 0 then (vals[cur[0]], [cur[0]])
    else
      var p := Scan(vals, cur, n - 1);
      var v := vals[cur[n - 1]];
      if v > p.0 then (v, [cur[n - 1]])
      else if v == p.0 then (p.0, p.1 + [cur[n - 1]])
      else p
  }

  /** The survivors after one criterion: next_gens once the whole of cur_gens is scanned. */
  function Filter(vals: seq<real>, cur: seq<nat>): seq<nat>
    requires |cur| > 0 && IdsIn(vals, cur)
  {
    Scan(vals, cur, |cur|).1
  }

  /** max_fit is at least the leading value, bounds every value scanned and is attained. */
  lemma {:induction false} ScanMax(vals: seq<real>, cur: seq<nat>, n: nat)
    requires |cur| > 0 && IdsIn(vals, cur) && n <= |cur|
    ensures Scan(vals, cur, n).0 >= vals[cur[0]]
    ensures forall i :: 0 <= i < n ==> vals[cur[i]] <= Scan(vals, cur, n).0
    ensures var m := Scan(vals, cur, n).0;
            m == vals[cur[0]] || exists i :: 0 <= i < n && vals[cur[i]] == m
  {
    if n > 0 {
      ScanMax(vals, cur, n - 1);
    }
  }

  /**
   * next_gens holds cur_gens[0] while it ties max_fit, and every scanned
   * entry that ties max_fit; nothing else.
   */
  lemma {:induction false} ScanMembers(vals: seq<real>, cur: seq<nat>, n: nat, x: nat)
    requires |cur| > 0 && IdsIn(vals, cur) && n <= |cur|
    ensures var m := Scan(vals, cur, n).0;
            x in Scan(vals, cur, n).1 <==>
              (x == cur[0] && vals[x] == m) || ((exists i :: 0 <= i < n && cur[i] == x) && vals[x] == m)
  {
    if n > 0 {
      ScanMembers(vals, cur, n - 1, x);
      ScanMax(vals, cur, n - 1);
      var p := Scan(vals, cur, n - 1);
      var v := vals[cur[n - 1]];
      if v > p.0 {
        assert Scan(vals, cur, n).1 == [cur[n - 1]];
        if x == cur[n - 1] {
          assert vals[x] == Scan(vals, cur, n).0;
        } else {
          assert forall i :: 0 <= i < n - 1 ==> vals[cur[i]] < v;
        }
      } else if v == p.0 {
        assert Scan(vals, cur, n).1 == p.1 + [cur[n - 1]];
      }
    }
  }

  /**
   * The survivors are exactly the entries of cur with the best value, so
   * the list is never empty, and each of them is an index into vals.
   */
  lemma FilterKeepsTheBest(vals: seq<real>, cur: seq<nat>)
    requires |cur| > 0 && IdsIn(vals, cur)
    ensures |Filter(vals, cur)| > 0
    ensures IdsIn(vals, Filter(vals, cur))
    ensures forall x :: x in Filter(vals, cur) <==> x in cur && forall y :: y in cur ==> vals[y] <= vals[x]
  {
    var n := |cur|;
    var m := Scan(vals, cur, n).0;
    var next := Filter(vals, cur);
    ScanMax(vals, cur, n);
    var k: nat;
    if m == vals[cur[0]] {
      k := 0;
    } else {
      k :| k < n && vals[cur[k]] == m;
    }
    ScanMembers(vals, cur, n, cur[k]);
    assert cur[k] in next;
    forall x: int
      ensures x in next <==> x in cur && forall y :: y in cur ==> vals[y] <= vals[x]
    {
      if x >= 0 {
        ScanMembers(vals, cur, n, x);
      }
      if x in cur {
        var j :| 0 <= j < n && cur[j] == x;
        assert vals[x] <= m;
        if forall y :: y in cur ==> vals[y] <= vals[x] {
          assert vals[cur[k]] <= vals[x];
        }
      }
    }
    forall i | 0 <= i < |next|
      ensures next[i] < |vals|
    {
      assert next[i] in next;
      assert next[i] in cur;
    }
  }

  /** While no later entry beats cur_gens[0], next_gens keeps it at its head, twice once it is revisited. */
  lemma {:induction false} LeaderStays(vals: seq<real>, cur: seq<nat>, n: nat)
    requires |cur| > 0 && IdsIn(vals, cur) && 1 <= n <= |cur|
    requires forall i :: 0 <= i < |cur| ==> vals[cur[i]] <= vals[cur[0]]
    ensures Scan(vals, cur, n).0 == vals[cur[0]]
    ensures |Scan(vals, cur, n).1| >= 2
    ensures Scan(vals, cur, n).1[0] == cur[0] && Scan(vals, cur, n).1[1] == cur[0]
  {
    if n > 1 {
      LeaderStays(vals, cur, n - 1);
    }
  }

  /** When the leading entry ties the maximum it heads the survivors twice. */
  lemma LeadingTieKeptTwice(vals: seq<real>, cur: seq<nat>)
    requires |cur| > 0 && IdsIn(vals, cur)
    requires forall y :: y in cur ==> vals[y] <= vals[cur[0]]
    ensures |Filter(vals, cur)| >= 2
    ensures Filter(vals, cur)[0] == cur[0] && Filter(vals, cur)[1] == cur[0]
  {
    forall i | 0 <= i < |cur|
      ensures vals[cur[i]] <= vals[cur[0]]
    {
      assert cur[i] in cur;
    }
    LeaderStays(vals, cur, |cur|);
  }

  /** Two tied singleton genotypes: three survivors, so the first holds two of the three options. */
  lemma TwoTiedGenotypesGiveThreeSurvivors()
    ensures Filter([1.0, 1.0], [0, 1]) == [0, 0, 1]
  {
    assert Scan([1.0, 1.0], [0, 1], 0) == (1.0, [0]);
    assert Scan([1.0, 1.0], [0, 1], 1).1 == [0] + [0] == [0, 0];
    assert Scan([1.0, 1.0], [0, 1], 2).1 == [0, 0] + [1] == [0, 0, 1];
  }

  /** The inner scan of one criterion: next_gens as the loop leaves it. */
  method FilterStep(vals: seq<real>, cur: seq<nat>) returns (next: seq<nat>)
    requires |cur| > 0 && IdsIn(vals, cur)
    ensures next == Filter(vals, cur)
  {
    var maxFit := vals[cur[0]];
    next := [cur[0]];
    for i := 0 to |cur|
      invariant (maxFit, next) == Scan(vals, cur, i)
    {
      var genId := cur[i];
      var curFit := vals[genId];
      if curFit > maxFit {
        maxFit := curFit;
        next := [genId];
      } else if curFit == maxFit {
        next := next + [genId];
      }
    }
  }
}
