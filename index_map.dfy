/**
 * emp::IndexMap as RouletteSelect uses it (its implementation is not part of
 * this model): a weight per id, Adjust(id, w) to set one, GetWeight() for the
 * total and Index(pos) for the id whose slice of the cumulative weight
 * contains pos.  The weights are a sequence; the operations are functions.
 */
module WeightedIndex {

  /** GetWeight(): the total of all weights. */
  function Sum(ws: seq<real>): real
  {
    if ws == [] then 0.0 else ws[0] + Sum(ws[1..])
  }

  predicate NonNegative(ws: seq<real>)
  {
    forall i :: 0 <= i < |ws| ==> ws[i] >= 0.0
  }

  lemma {:induction false} SumNonNegative(ws: seq<real>)
    requires NonNegative(ws)
    ensures Sum(ws) >= 0.0
  {
    if ws != [] {
      SumNonNegative(ws[1..]);
    }
  }

  /** The cumulative weight of a prefix grows by each next weight. */
  lemma {:induction false} SumSnoc(ws: seq<real>, k: nat)
    requires k < |ws|
    ensures Sum(ws[..k + 1]) == Sum(ws[..k]) + ws[k]
  {
    if k > 0 {
      assert ws[..k + 1][1..] == ws[1..][..k];
      assert ws[..k][1..] == ws[1..][..k - 1];
      SumSnoc(ws[1..], k - 1);
    }
  }

  /**
   * Index(pos): the id whose half-open cumulative interval
   * [Sum(ws[..id]), Sum(ws[..id + 1])) contains pos; its weight is positive.
   */
  function Index(ws: seq<real>, pos: real): (id: nat)
    requires NonNegative(ws) && 0.0 <= pos < Sum(ws)
    ensures id < |ws|
    ensures Sum(ws[..id]) <= pos < Sum(ws[..id + 1])
    ensures ws[id] > 0.0
  {
    assert ws[..1] == [ws[0]];
    if pos < ws[0] then 0
    else
      var id' := Index(ws[1..], pos - ws[0]);
      assert ws[..id' + 1][1..] == ws[1..][..id'];
      assert ws[..id' + 2][1..] == ws[1..][..id' + 1];
      SumSnoc(ws, id' + 1);
      id' + 1
  }

  /** A larger position never maps to a smaller id. */
  lemma {:induction false} IndexMonotone(ws: seq<real>, p: real, q: real)
    requires NonNegative(ws) && 0.0 <= p <= q < Sum(ws)
    ensures Index(ws, p) <= Index(ws, q)
  {
    if p >= ws[0] {
      IndexMonotone(ws[1..], p - ws[0], q - ws[0]);
    }
  }

  /** Adjust(id, w) changes the total by exactly the change of that one weight. */
  lemma {:induction false} SumAdjust(ws: seq<real>, id: nat, w: real)
    requires id < |ws|
    ensures Sum(ws[id := w]) == Sum(ws) - ws[id] + w
  {
    if id > 0 {
      assert ws[id := w][1..] == ws[1..][id - 1 := w];
      SumAdjust(ws[1..], id - 1, w);
    } else {
      assert ws[id := w][1..] == ws[1..];
    }
  }

  /** Prefix sums of non-negative weights never decrease. */
  lemma {:induction false} PrefixSumMonotone(ws: seq<real>, a: nat, b: nat)
    requires NonNegative(ws) && a <= b <= |ws|
    ensures Sum(ws[..a]) <= Sum(ws[..b])
  {
    if a < b {
      PrefixSumMonotone(ws, a, b - 1);
      SumSnoc(ws, b - 1);
    }
  }

  /** Index(pos) is the one id whose cumulative slice contains pos. */
  lemma IndexIsSliceOwner(ws: seq<real>, pos: real, j: nat)
    requires NonNegative(ws) && 0.0 <= pos < Sum(ws) && j < |ws|
    ensures Index(ws, pos) == j <==> Sum(ws[..j]) <= pos < Sum(ws[..j + 1])
  {
    var i := Index(ws, pos);
    if Sum(ws[..j]) <= pos < Sum(ws[..j + 1]) {
      if i < j {
        PrefixSumMonotone(ws, i + 1, j);
      } else if j < i {
        PrefixSumMonotone(ws, j + 1, i);
      }
    }
  }
}
