/**
 * MapElitesPhenotype and MapElitesConfig (source/Evolve/World_select.h):
 * every phenotype maps an organism to an id below its id_count, and the
 * configuration combines the ids of all its phenotypes into one cell id by
 * a mixed-radix encoding, the first phenotype being the least significant
 * digit.  All arithmetic is on size_t, so it wraps modulo 2^64.
 */
module MapElitesIds {

  const SIZE_T_MODULUS: nat := 0x1_0000_0000_0000_0000

  /** A size_t value. */
  type SizeT = x: nat | x < SIZE_T_MODULUS

  datatype Option<T> = None | Some(value: T)

  /** pheno_fun, None for an empty std::function, and id_count. */
  datatype Phenotype<!O> = Phenotype(phenoFun: Option<O -> SizeT>, idCount: SizeT)

  /** The default constructor: no function and no ids. */
  function DefaultPhenotype<O>(): (p: Phenotype<O>)
    ensures !PhenotypeOK(p)
  {
    Phenotype(None, 0)
  }

  /**
   * MapElitesPhenotype::OK(): a function is set and there is at least one
   * category (so GetID can be called, see PhenotypeID).
   */
  predicate PhenotypeOK<O>(p: Phenotype<O>): (ok: bool)
    ensures ok <==> p.phenoFun.Some? && p.idCount >= 1
  {
    p.phenoFun.Some? && p.idCount != 0
  }

  /**
   * MapElitesPhenotype::GetID(org): pheno_fun(org).  None stands for the
   * exception std::function throws when it is empty.
   */
  function PhenotypeID<O>(p: Phenotype<O>, org: O): (r: Option<SizeT>)
    ensures r.Some? <==> p.phenoFun.Some?
    ensures PhenotypeOK(p) ==> r.Some?
  {
    match p.phenoFun
    case None => None
    case Some(f) => Some(f(org))
  }

  /** Every phenotype has a function to call. */
  predicate Callable<O>(ps: seq<Phenotype<O>>)
  {
    forall i :: 0 <= i < |ps| ==> ps[i].phenoFun.Some?
  }

  /** The id_count of every phenotype. */
  function Counts<O>(ps: seq<Phenotype<O>>): (cs: seq<nat>)
    ensures |cs| == |ps|
  {
    seq(|ps|, i requires 0 <= i < |ps| => ps[i].idCount as nat)
  }

  /** The id every phenotype gives org. */
  function Ids<O>(ps: seq<Phenotype<O>>, org: O): (ids: seq<nat>)
    requires Callable(ps)
    ensures |ids| == |ps|
  {
    seq(|ps|, i requires 0 <= i < |ps| => ps[i].phenoFun.value(org) as nat)
  }

  /** The exact product of the first n counts. */
  function Product(counts: seq<nat>, n: nat): nat
    requires n <= |counts|
  {
    if n == 0 then 1 else Product(counts, n - 1) * counts[n - 1]
  }

  /** The exact mixed-radix number whose first n digits are ids, in the radices counts. */
  function MixedRadix(ids: seq<nat>, counts: seq<nat>, n: nat): nat
    requires n <= |ids| && n <= |counts|
  {
    if n == 0 then 0 else MixedRadix(ids, counts, n - 1) + ids[n - 1] * Product(counts, n - 1)
  }

  /** Every id is a digit of its radix. */
  predicate Digits(ids: seq<nat>, counts: seq<nat>, n: nat)
    requires n <= |ids| && n <= |counts|
  {
    forall i :: 0 <= i < n ==> ids[i] < counts[i]
  }

  lemma MulMonotone(x: nat, y: nat, z: nat)
    requires x <= y
    ensures x * z <= y * z
  {
  }

  lemma {:induction false} ProductPositive(counts: seq<nat>, n: nat)
    requires n <= |counts| && forall i :: 0 <= i < n ==> counts[i] > 0
    ensures Product(counts, n) > 0
  {
    if n > 0 {
      ProductPositive(counts, n - 1);
      MulMonotone(1, counts[n - 1], Product(counts, n - 1));
    }
  }

  /** One more digit below its radix keeps the number below the grown product. */
  lemma DigitStepBelow(x: nat, d: nat, c: nat, p: nat)
    requires x < p && d < c
    ensures x + d * p < p * c
  {
    MulMonotone(d + 1, c, p);
    assert (d + 1) * p == d * p + p;
  }

  /** A number below 2^64 is its own remainder. */
  lemma ModSmall(x: nat)
    requires x < SIZE_T_MODULUS
    ensures x % SIZE_T_MODULUS == x
  {
  }

  /** Digits below their radices encode a number below the product of the radices. */
  lemma {:induction false} MixedRadixBelow(ids: seq<nat>, counts: seq<nat>, n: nat)
    requires n <= |ids| && n <= |counts| && Digits(ids, counts, n)
    ensures MixedRadix(ids, counts, n) < Product(counts, n)
  {
    if n > 0 {
      MixedRadixBelow(ids, counts, n - 1);
      DigitStepBelow(MixedRadix(ids, counts, n - 1), ids[n - 1], counts[n - 1], Product(counts, n - 1));
    }
  }

  /** A quotient and remainder by p are determined by the number. */
  lemma DivisionUnique(x: nat, r: nat, y: nat, s: nat, p: nat)
    requires r < p && s < p && x * p + r == y * p + s
    ensures x == y && r == s
  {
    if x < y {
      MulMonotone(x + 1, y, p);
    } else if y < x {
      MulMonotone(y + 1, x, p);
    }
  }

  /** Distinct digit vectors within the radices encode distinct numbers. */
  lemma {:induction false} MixedRadixInjective(a: seq<nat>, b: seq<nat>, counts: seq<nat>, n: nat)
    requires n <= |a| && n <= |b| && n <= |counts|
    requires Digits(a, counts, n) && Digits(b, counts, n)
    requires MixedRadix(a, counts, n) == MixedRadix(b, counts, n)
    ensures a[..n] == b[..n]
  {
    if n > 0 {
      var p := Product(counts, n - 1);
      MixedRadixBelow(a, counts, n - 1);
      MixedRadixBelow(b, counts, n - 1);
      DivisionUnique(a[n - 1], MixedRadix(a, counts, n - 1), b[n - 1], MixedRadix(b, counts, n - 1), p);
      MixedRadixInjective(a, b, counts, n - 1);
      assert a[..n] == a[..n - 1] + [a[n - 1]];
      assert b[..n] == b[..n - 1] + [b[n - 1]];
    }
  }

  /** Adding k times the modulus does not change a remainder. */
  lemma ModAddMultiple(k: nat, y: nat)
    ensures (k * SIZE_T_MODULUS + y) % SIZE_T_MODULUS == y % SIZE_T_MODULUS
  {
  }

  /** One step of a wrapping multiply-accumulate agrees with the exact one modulo 2^64. */
  lemma ModStep(a: nat, d: nat, b: nat)
    ensures (a % SIZE_T_MODULUS + d * (b % SIZE_T_MODULUS)) % SIZE_T_MODULUS == (a + d * b) % SIZE_T_MODULUS
  {
    var M := SIZE_T_MODULUS;
    var qa, ra := a / M, a % M;
    var qb, rb := b / M, b % M;
    assert b == qb * M + rb;
    assert d * b == (d * qb) * M + d * rb;
    assert a + d * b == (qa + d * qb) * M + (ra + d * rb);
    ModAddMultiple(qa + d * qb, ra + d * rb);
  }

  /** A wrapping multiply agrees with the exact one modulo 2^64. */
  lemma ModMul(x: nat, c: nat)
    ensures (x % SIZE_T_MODULUS) * c % SIZE_T_MODULUS == (x * c) % SIZE_T_MODULUS
  {
    ModStep(0, c, x);
  }

  /** MapElitesConfig::OK(): every phenotype is OK. */
  method ConfigOK<O>(ps: seq<Phenotype<O>>) returns (ok: bool)
    ensures ok <==> forall i :: 0 <= i < |ps| ==> PhenotypeOK(ps[i])
  {
    for i := 0 to |ps|
      invariant forall k :: 0 <= k < i ==> PhenotypeOK(ps[k])
    {
      if !PhenotypeOK(ps[i]) {
        return false;
      }
    }
    return true;
  }

  /** MapElitesConfig::GetIDCount(): the product of all id_counts, wrapped to size_t; 1 for no phenotypes. */
  method GetIDCount<O>(ps: seq<Phenotype<O>>) returns (idCount: SizeT)
    ensures idCount == Product(Counts(ps), |ps|) % SIZE_T_MODULUS
    ensures |ps| == 0 ==> idCount == 1
  {
    ghost var counts := Counts(ps);
    idCount := 1;
    for i := 0 to |ps|
      invariant idCount == Product(counts, i) % SIZE_T_MODULUS
    {
      assert counts[i] == ps[i].idCount;
      ModMul(Product(counts, i), counts[i]);
      idCount := (idCount * ps[i].idCount) % SIZE_T_MODULUS;
    }
  }

  /**
   * MapElitesConfig::GetID(org): id += pid * scale and scale *= id_count
   * for every phenotype in turn, wrapping to size_t.  None when some
   * phenotype's function is empty.
   */
  method GetID<O>(ps: seq<Phenotype<O>>, org: O) returns (r: Option<SizeT>)
    ensures r.Some? <==> Callable(ps)
    ensures r.Some? ==> r.value == MixedRadix(Ids(ps, org), Counts(ps), |ps|) % SIZE_T_MODULUS
  {
    ghost var counts := Counts(ps);
    ghost var digits: seq<nat> := [];
    var id: SizeT, scale: SizeT := 0, 1;
    for i := 0 to |ps|
      invariant |digits| == i
      invariant forall k :: 0 <= k < i ==> ps[k].phenoFun.Some? && digits[k] == ps[k].phenoFun.value(org)
      invariant id == MixedRadix(digits, counts, i) % SIZE_T_MODULUS
      invariant scale == Product(counts, i) % SIZE_T_MODULUS
    {
      var pid := PhenotypeID(ps[i], org);
      if pid.None? {
        return None;
      }
      ghost var x := MixedRadix(digits, counts, i);
      ghost var p := Product(counts, i);
      MixedRadixPrefix(digits + [pid.value], digits, counts, i);
      ModStep(x, pid.value, p);
      assert counts[i] == ps[i].idCount;
      ModMul(p, counts[i]);
      id := (id + pid.value * scale) % SIZE_T_MODULUS;
      scale := (scale * ps[i].idCount) % SIZE_T_MODULUS;
      digits := digits + [pid.value];
    }
    assert digits == Ids(ps, org);
    r := Some(id);
  }

  /** MixedRadix reads only the first n digits. */
  lemma {:induction false} MixedRadixPrefix(a: seq<nat>, b: seq<nat>, counts: seq<nat>, n: nat)
    requires n <= |a| && n <= |b| && n <= |counts|
    requires forall k :: 0 <= k < n ==> a[k] == b[k]
    ensures MixedRadix(a, counts, n) == MixedRadix(b, counts, n)
  {
    if n > 0 {
      MixedRadixPrefix(a, b, counts, n - 1);
    }
  }

  /**
   * If every phenotype's id is below its id_count and the product of the
   * id_counts fits in size_t, GetID(org) is below GetIDCount().
   */
  lemma GetIDBelowIDCount<O>(ps: seq<Phenotype<O>>, org: O)
    requires Callable(ps)
    requires Digits(Ids(ps, org), Counts(ps), |ps|)
    requires Product(Counts(ps), |ps|) < SIZE_T_MODULUS
    ensures MixedRadix(Ids(ps, org), Counts(ps), |ps|) % SIZE_T_MODULUS < Product(Counts(ps), |ps|) % SIZE_T_MODULUS
  {
    var x, p := MixedRadix(Ids(ps, org), Counts(ps), |ps|), Product(Counts(ps), |ps|);
    MixedRadixBelow(Ids(ps, org), Counts(ps), |ps|);
    ModSmall(x);
    ModSmall(p);
  }

  /** Organisms with different phenotype ids (each below its id_count) get different cell ids, when nothing wraps. */
  lemma GetIDSeparates<O>(ps: seq<Phenotype<O>>, x: O, y: O)
    requires Callable(ps)
    requires Digits(Ids(ps, x), Counts(ps), |ps|) && Digits(Ids(ps, y), Counts(ps), |ps|)
    requires Product(Counts(ps), |ps|) < SIZE_T_MODULUS
    requires Ids(ps, x) != Ids(ps, y)
    ensures MixedRadix(Ids(ps, x), Counts(ps), |ps|) % SIZE_T_MODULUS !=
            MixedRadix(Ids(ps, y), Counts(ps), |ps|) % SIZE_T_MODULUS
  {
    var a, b, counts := Ids(ps, x), Ids(ps, y), Counts(ps);
    MixedRadixBelow(a, counts, |ps|);
    MixedRadixBelow(b, counts, |ps|);
    ModSmall(MixedRadix(a, counts, |ps|));
    ModSmall(MixedRadix(b, counts, |ps|));
    if MixedRadix(a, counts, |ps|) == MixedRadix(b, counts, |ps|) {
      MixedRadixInjective(a, b, counts, |ps|);
      assert false;
    }
  }

  /** Two OK phenotypes with 2^32 ids each: the id count wraps to 0, so no cell id is below it. */
  lemma IDCountCanWrap()
    ensures Product([0x1_0000_0000, 0x1_0000_0000], 2) % SIZE_T_MODULUS == 0
  {
    assert Product([0x1_0000_0000, 0x1_0000_0000], 1) == 0x1_0000_0000;
  }
}
