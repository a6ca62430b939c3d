/**
 * emp::Random: the Middle Square Weyl Sequence generator (include/emp/math/Random.hpp).
 *
 * The generator's words are unsigned 64-bit integers; they are modelled as
 * integers in [0, 2^64) and every arithmetic step reduces modulo 2^64 exactly
 * as C++ unsigned arithmetic does.  The functions before the class state what
 * one draw does to the state (Next, Draw) and what a run of draws yields
 * (Advance, Stream); the methods of class Random are proved against them.
 */
module MiddleSquareWeyl {

  /** RAND_CAP, the number of distinct raw draws: 2^32. */
  const RAND_CAP: nat := 0x1_0000_0000
  /** The modulus of uint64_t arithmetic: 2^64. */
  const TWO_64: nat := 0x1_0000_0000_0000_0000
  /** STEP_SIZE, the odd increment of the Weyl sequence. */
  const STEP_SIZE: nat := 0xb5ad4eceda1ce2a9

  type u32 = x: int | 0 <= x < 0x1_0000_0000
  type u64 = x: int | 0 <= x < 0x1_0000_0000_0000_0000
  type i32 = x: int | -0x8000_0000 <= x < 0x8000_0000
  type i64 = x: int | -0x8000_0000_0000_0000 <= x < 0x8000_0000_0000_0000

  /** The part of the generator that a draw updates: the squaring value and the Weyl state. */
  datatype Gen = Gen(value: u64, weyl: u64)

  // ---------------------------------------------------------------------------
  // One draw

  /** `(x >> 32) | (x << 32)` on a 64-bit word: the two 32-bit halves change places. */
  function Swap32(x: u64): (r: u64)
    ensures r % RAND_CAP == x / RAND_CAP
    ensures r / RAND_CAP == x % RAND_CAP
  {
    x / RAND_CAP + (x % RAND_CAP) * RAND_CAP
  }

  /** Swapping the halves twice gives the word back. */
  lemma Swap32Involution(x: u64)
    ensures Swap32(Swap32(x)) == x
  {
  }

  /**
   * The state after one call of Get(): the Weyl state takes one step and the
   * new value is value^2 + weyl' modulo 2^64 with its halves exchanged.
   */
  function Next(g: Gen): Gen
  {
    var w := (g.weyl + STEP_SIZE) % TWO_64;
    Gen(Swap32((g.value * g.value + w) % TWO_64), w)
  }

  /** The value one call of Get() returns from state g: the low 32 bits of the new value. */
  function Draw(g: Gen): u32
  {
    Next(g).value % RAND_CAP
  }

  /** The returned value is the middle of the square: bits 32..63 of value^2 + weyl' (mod 2^64). */
  lemma DrawIsMiddleOfSquare(g: Gen)
    ensures Next(g).weyl == (g.weyl + STEP_SIZE) % TWO_64
    ensures Next(g).value / RAND_CAP == ((g.value * g.value + Next(g).weyl) % TWO_64) % RAND_CAP
    ensures Draw(g) == ((g.value * g.value + Next(g).weyl) % TWO_64) / RAND_CAP
    ensures Draw(g) < RAND_CAP
  {
  }

  /**
   * The k-th draw from g is the middle of the square of the value it starts
   * from plus the Weyl state g.weyl + (k + 1) * STEP_SIZE: the Weyl part of
   * every draw is known in advance.
   */
  lemma DrawAt(g: Gen, k: nat)
    ensures var v := Advance(g, k).value;
            Draw(Advance(g, k)) == ((v * v + (g.weyl + (k + 1) * STEP_SIZE) % TWO_64) % TWO_64) / RAND_CAP
  {
    WeylProgression(g, k + 1);
  }

  // ---------------------------------------------------------------------------
  // Runs of draws

  /** The state after n draws. */
  function Advance(g: Gen, n: nat): Gen
  {
    if n == 0 then g else Next(Advance(g, n - 1))
  }

  /** The values of the next n draws from state g, in the order they are returned. */
  function Stream(g: Gen, n: nat): (s: seq<u32>)
    ensures |s| == n
  {
    if n == 0 then [] else Stream(g, n - 1) + [Draw(Advance(g, n - 1))]
  }

  /** Runs of one, two and three draws, written out. */
  lemma AdvanceSmall(g: Gen)
    ensures Advance(g, 1) == Next(g)
    ensures Advance(g, 2) == Next(Next(g))
    ensures Advance(g, 3) == Next(Next(Next(g)))
  {
    assert Advance(g, 1) == Next(g);
    assert Advance(g, 2) == Next(Advance(g, 1));
    assert Advance(g, 3) == Next(Advance(g, 2));
  }

  lemma {:induction false} AdvanceAdd(g: Gen, m: nat, n: nat)
    ensures Advance(Advance(g, m), n) == Advance(g, m + n)
  {
    if n > 0 {
      AdvanceAdd(g, m, n - 1);
    }
  }

  /** The i-th value of a run is the draw made from the state after i draws. */
  lemma {:induction false} StreamAt(g: Gen, n: nat, i: nat)
    requires i < n
    ensures Stream(g, n)[i] == Draw(Advance(g, i))
  {
    if i < n - 1 {
      StreamAt(g, n - 1, i);
    }
  }

  /** A run of m + n draws is the run of m draws followed by the run of n draws from where it stopped. */
  lemma {:induction false} StreamAppend(g: Gen, m: nat, n: nat)
    ensures Stream(g, m + n) == Stream(g, m) + Stream(Advance(g, m), n)
  {
    if n > 0 {
      StreamAppend(g, m, n - 1);
      AdvanceAdd(g, m, n - 1);
    }
  }

  /** The Weyl state moves by STEP_SIZE per draw, modulo 2^64, whatever the squaring value does. */
  lemma {:induction false} WeylProgression(g: Gen, n: nat)
    ensures Advance(g, n).weyl == (g.weyl + n * STEP_SIZE) % TWO_64
  {
    if n > 0 {
      WeylProgression(g, n - 1);
      ModAddLeft(g.weyl + (n - 1) * STEP_SIZE, STEP_SIZE);
    }
  }

  /** Reducing a summand modulo 2^64 first does not change the sum modulo 2^64. */
  lemma ModAddLeft(a: int, b: int)
    ensures (a % TWO_64 + b) % TWO_64 == (a + b) % TWO_64
  {
    var q := a / TWO_64;
    assert a == q * TWO_64 + a % TWO_64;
    assert a + b == (a % TWO_64 + b) + q * TWO_64;
  }

  // ---------------------------------------------------------------------------
  // Values derived from raw draws

  /** GetDouble(): the raw draw divided by 2^32; exact, since a 32-bit integer over 2^32 is a double. */
  function UnitInterval(d: u32): (x: real)
    ensures 0.0 <= x < 1.0
  {
    d as real / RAND_CAP as real
  }

  /** GetDouble(max): the unit value scaled by max, in exact arithmetic. */
  function ScaledBelow(d: u32, max: real): (x: real)
    ensures max > 0.0 ==> 0.0 <= x < max
    ensures max == 0.0 ==> x == 0.0
  {
    var u := UnitInterval(d);
    assert max > 0.0 ==> u * max < max by {
      if max > 0.0 {
        assert (1.0 - u) * max > 0.0;
      }
    }
    u * max
  }

  /** GetUInt(max): floor(GetDouble() * max), the product taken exactly. */
  function UIntBelow(d: u32, max: nat): (r: nat)
    ensures max > 0 ==> r < max
    ensures max == 0 ==> r == 0
  {
    assert max > 0 ==> d * max < RAND_CAP * max by {
      if max > 0 {
        assert (RAND_CAP - d) * max > 0;
      }
    }
    d * max / RAND_CAP
  }

  /** UIntBelow is the floor of the exact product GetDouble() * max. */
  lemma UIntBelowIsFloor(d: u32, max: nat)
    ensures UIntBelow(d, max) as real <= UnitInterval(d) * max as real < UIntBelow(d, max) as real + 1.0
  {
    var q := d * max / RAND_CAP;
    var rem := d * max % RAND_CAP;
    assert d * max == q * RAND_CAP + rem;
    assert (d * max) as real == q as real * RAND_CAP as real + rem as real;
    assert UnitInterval(d) * max as real == (d * max) as real / RAND_CAP as real;
  }

  /** GetUInt(min, max): (uint32_t) arithmetic, so max - min and the final sum wrap modulo 2^32. */
  function UIntBetween(d: u32, lo: u32, hi: u32): (r: u32)
    ensures lo < hi ==> lo <= r < hi
    ensures lo == hi ==> r == lo
  {
    (UIntBelow(d, (hi - lo) % RAND_CAP) + lo) % RAND_CAP
  }

  /** GetInt(max): static_cast<int32_t>(GetUInt((uint32_t) max)); a negative max wraps to max + 2^32. */
  function IntBelow(d: u32, max: i32): (r: i32)
    ensures 0 < max ==> 0 <= r < max
    ensures max == 0 ==> r == 0
  {
    var u := UIntBelow(d, if max < 0 then max + RAND_CAP else max);
    if u < 0x8000_0000 then u else u - RAND_CAP
  }

  /**
   * RandomStdAdaptor's rng(n) is GetInt(n).  For n below 2^31 it picks the
   * same index as GetUInt(n), the generator sample_with_replacement is
   * modelled with.
   */
  lemma AdaptorAgreesBelowHalf(d: u32, n: nat)
    requires n < 0x8000_0000
    ensures IntBelow(d, n) == UIntBelow(d, n)
  {
  }

  /** GetUInt64(): the first draw becomes the high half, the second the low half. */
  function Compose64(hi: u32, lo: u32): (r: u64)
    ensures r / RAND_CAP == hi && r % RAND_CAP == lo
  {
    hi * RAND_CAP + lo
  }

  /**
   * a & b, bit by bit from the lowest.  Bitwise operations are written on
   * integers so that a word is the same number everywhere in the model.
   */
  function BitwiseAnd(a: nat, b: nat): (r: nat)
    ensures r <= a && r <= b
  {
    if a == 0 || b == 0 then 0
    else 2 * BitwiseAnd(a / 2, b / 2) + (if a % 2 == 1 && b % 2 == 1 then 1 else 0)
  }

  /** `a & b` on uint32_t. */
  function BitAnd32(a: u32, b: u32): u32
  {
    BitwiseAnd(a, b)
  }

  /** `a | b` on uint32_t, as ~(~a & ~b) with ~x == 2^32 - 1 - x. */
  function BitOr32(a: u32, b: u32): (r: u32)
    ensures a <= r && b <= r
  {
    RAND_CAP - 1 - BitwiseAnd(RAND_CAP - 1 - a, RAND_CAP - 1 - b)
  }

  /** `a & b` on uint64_t. */
  function BitAnd64(a: u64, b: u64): u64
  {
    BitwiseAnd(a, b)
  }

  /** P(p): true iff the raw draw is below p * 2^32. */
  predicate Bernoulli(d: u32, p: real)
  {
    (d as real) < p * RAND_CAP as real
  }

  /** P(0.0) is never true and P(1.0) always is, since every raw draw is below 2^32. */
  lemma BernoulliBounds(d: u32, p: real)
    requires 0.0 <= p <= 1.0
    ensures p == 0.0 ==> !Bernoulli(d, p)
    ensures p == 1.0 ==> Bernoulli(d, p)
  {
  }

  /** The number of draws in s that pass the Bernoulli test for p. */
  function Successes(s: seq<u32>, p: real): (k: nat)
    ensures k <= |s|
  {
    if s == [] then 0
    else Successes(s[..|s| - 1], p) + (if Bernoulli(s[|s| - 1], p) then 1 else 0)
  }

  /** The number of iterations of `for (uint32_t i = 0; i < n; ++i)` for a non-negative n. */
  function Ceil(x: real): (c: nat)
    requires x >= 0.0
    ensures x <= c as real < x + 1.0
  {
    if x.Floor as real == x then x.Floor else x.Floor + 1
  }

  // ---------------------------------------------------------------------------
  // The generator object

  class Random {
    /** The current squaring value. */
    var value: u64
    /** The Weyl sequence state. */
    var weylState: u64
    /** The seed that started the current sequence. */
    var originalSeed: u64
    /** The exponential variate carried between GetRandNormal calls (that distribution is not modelled). */
    var expRV: real

    function State(): Gen
      reads this
    {
      Gen(value, weylState)
    }

    /** GetSeed(). */
    function GetSeed(): (s: u64)
      reads this
      ensures s == originalSeed
    {
      originalSeed
    }

    /** The fields a draw never touches keep their values. */
    twostate predicate KeepsSeed()
      reads this
    {
      originalSeed == old(originalSeed) && expRV == old(expRV)
    }

    /**
     * Random(seed): every field starts at zero, then ResetSeed(seed).  `entropy`
     * stands for time(NULL) ^ (uint64_t) this, which a seed <= 0 falls back on.
     */
    constructor (seed: i32, entropy: u64)
      ensures value == 0 && expRV == 0.0
      ensures originalSeed == if seed > 0 then seed else entropy
      ensures weylState == (2 * originalSeed) % TWO_64
      ensures seed > 0 ==> State() == Gen(0, 2 * seed)
    {
      value, weylState, originalSeed, expRV := 0, 0, 0, 0.0;
      new;
      ResetSeed(seed, entropy);
    }

    /** ResetSeed(seed): remember the seed and start the Weyl state at twice it, which is even. */
    method ResetSeed(seed: i64, entropy: u64)
      modifies this
      ensures value == old(value) && expRV == old(expRV)
      ensures originalSeed == if seed > 0 then seed else entropy
      ensures weylState == (2 * originalSeed) % TWO_64
      ensures weylState % 2 == 0
      ensures GetSeed() == originalSeed
    {
      if seed <= 0 {
        weylState := entropy;
      } else {
        weylState := seed;
      }
      originalSeed := weylState;
      weylState := (weylState * 2) % TWO_64;
    }

    /** Get(): square, add the advanced Weyl state, swap the halves, return the low half. */
    method Get() returns (r: u32)
      modifies this
      ensures State() == Next(old(State())) && KeepsSeed()
      ensures r == Draw(old(State()))
    {
      var sq := value * value;
      value := sq % TWO_64;
      weylState := (weylState + STEP_SIZE) % TWO_64;
      ModAddLeft(sq, weylState);
      value := (value + weylState) % TWO_64;
      value := value / RAND_CAP + (value % RAND_CAP) * RAND_CAP;
      r := value % RAND_CAP;
    }

    /** GetDouble(). */
    method GetDouble() returns (x: real)
      modifies this
      ensures State() == Next(old(State())) && KeepsSeed()
      ensures x == UnitInterval(Draw(old(State())))
    {
      var d := Get();
      x := UnitInterval(d);
    }

    /** GetDouble(max). */
    method GetDoubleBelow(max: real) returns (x: real)
      modifies this
      ensures State() == Next(old(State())) && KeepsSeed()
      ensures x == ScaledBelow(Draw(old(State())), max)
    {
      var d := Get();
      x := ScaledBelow(d, max);
    }

    /** GetDouble(min, max). */
    method GetDoubleBetween(min: real, max: real) returns (x: real)
      modifies this
      ensures State() == Next(old(State())) && KeepsSeed()
      ensures x == ScaledBelow(Draw(old(State())), max - min) + min
      ensures min < max ==> min <= x < max
    {
      var d := Get();
      x := ScaledBelow(d, max - min) + min;
    }

    /** GetUInt(). */
    method GetUInt() returns (r: u32)
      modifies this
      ensures State() == Next(old(State())) && KeepsSeed()
      ensures r == Draw(old(State()))
    {
      r := Get();
    }

    /** GetUInt(max) for a max that fits the uint32_t result. */
    method GetUIntBelow(max: nat) returns (r: u32)
      requires max <= RAND_CAP
      modifies this
      ensures State() == Next(old(State())) && KeepsSeed()
      ensures r == UIntBelow(Draw(old(State())), max)
      ensures max > 0 ==> r < max
    {
      var d := Get();
      r := UIntBelow(d, max);
    }

    /** GetUInt(min, max). */
    method GetUIntBetween(lo: u32, hi: u32) returns (r: u32)
      modifies this
      ensures State() == Next(old(State())) && KeepsSeed()
      ensures r == UIntBetween(Draw(old(State())), lo, hi)
      ensures lo < hi ==> lo <= r < hi
    {
      var u := GetUIntBelow((hi - lo) % RAND_CAP);
      r := (u + lo) % RAND_CAP;
    }

    /** GetInt(max). */
    method GetInt(max: i32) returns (r: i32)
      modifies this
      ensures State() == Next(old(State())) && KeepsSeed()
      ensures r == IntBelow(Draw(old(State())), max)
      ensures 0 < max ==> 0 <= r < max
    {
      var u := GetUIntBelow(if max < 0 then max + RAND_CAP else max);
      r := if u < 0x8000_0000 then u else u - RAND_CAP;
    }

    /**
     * GetInt(min, max): GetInt(max - min) + min.  The int subtraction must not
     * overflow; min > max is accepted and goes through GetInt of a negative max.
     */
    method GetIntBetween(lo: i32, hi: i32) returns (r: int)
      requires -0x8000_0000 <= hi - lo < 0x8000_0000
      modifies this
      ensures State() == Next(old(State())) && KeepsSeed()
      ensures r == IntBelow(Draw(old(State())), hi - lo) + lo
      ensures lo < hi ==> lo <= r < hi
    {
      var k := GetInt(hi - lo);
      r := k + lo;
    }

    /** GetBits12_5(): AND of three draws. */
    method GetBits12_5() returns (r: u32)
      modifies this
      ensures State() == Advance(old(State()), 3) && KeepsSeed()
      ensures var g := old(State());
              r == BitAnd32(BitAnd32(Draw(g), Draw(Next(g))), Draw(Next(Next(g))))
    {
      ghost var g0 := State();
      var a := Get();
      var b := Get();
      var c := Get();
      AdvanceSmall(g0);
      r := BitAnd32(BitAnd32(a, b), c);
    }

    /** GetBits25(): AND of two draws. */
    method GetBits25() returns (r: u32)
      modifies this
      ensures State() == Advance(old(State()), 2) && KeepsSeed()
      ensures var g := old(State()); r == BitAnd32(Draw(g), Draw(Next(g)))
    {
      ghost var g0 := State();
      var a := Get();
      var b := Get();
      AdvanceSmall(g0);
      r := BitAnd32(a, b);
    }

    /** GetBits37_5(): (first | second) & third. */
    method GetBits37_5() returns (r: u32)
      modifies this
      ensures State() == Advance(old(State()), 3) && KeepsSeed()
      ensures var g := old(State());
              r == BitAnd32(BitOr32(Draw(g), Draw(Next(g))), Draw(Next(Next(g))))
    {
      ghost var g0 := State();
      var a := Get();
      var b := Get();
      var c := Get();
      AdvanceSmall(g0);
      r := BitAnd32(BitOr32(a, b), c);
    }

    /** GetBits50(): a single draw. */
    method GetBits50() returns (r: u32)
      modifies this
      ensures State() == Advance(old(State()), 1) && KeepsSeed()
      ensures r == Draw(old(State()))
    {
      ghost var g0 := State();
      AdvanceSmall(g0);
      r := Get();
    }

    /** GetBits62_5(): (first & second) | third. */
    method GetBits62_5() returns (r: u32)
      modifies this
      ensures State() == Advance(old(State()), 3) && KeepsSeed()
      ensures var g := old(State());
              r == BitOr32(BitAnd32(Draw(g), Draw(Next(g))), Draw(Next(Next(g))))
    {
      ghost var g0 := State();
      var a := Get();
      var b := Get();
      var c := Get();
      AdvanceSmall(g0);
      r := BitOr32(BitAnd32(a, b), c);
    }

    /** GetBits75(): OR of two draws. */
    method GetBits75() returns (r: u32)
      modifies this
      ensures State() == Advance(old(State()), 2) && KeepsSeed()
      ensures var g := old(State()); r == BitOr32(Draw(g), Draw(Next(g)))
    {
      ghost var g0 := State();
      var a := Get();
      var b := Get();
      AdvanceSmall(g0);
      r := BitOr32(a, b);
    }

    /** GetBits87_5(): OR of three draws. */
    method GetBits87_5() returns (r: u32)
      modifies this
      ensures State() == Advance(old(State()), 3) && KeepsSeed()
      ensures var g := old(State());
              r == BitOr32(BitOr32(Draw(g), Draw(Next(g))), Draw(Next(Next(g))))
    {
      ghost var g0 := State();
      var a := Get();
      var b := Get();
      var c := Get();
      AdvanceSmall(g0);
      r := BitOr32(BitOr32(a, b), c);
    }

    /** GetUInt64(): two draws, the first as the high half. */
    method GetUInt64() returns (r: u64)
      modifies this
      ensures State() == Advance(old(State()), 2) && KeepsSeed()
      ensures var g := old(State()); r == Compose64(Draw(g), Draw(Next(g)))
    {
      ghost var g0 := State();
      var hi := GetUInt();
      var lo := GetUInt();
      AdvanceSmall(g0);
      r := Compose64(hi, lo);
    }

    /**
     * GetUInt64(max).  Up to 2^32 it is GetUInt(max); above, it masks 64-bit draws
     * with `mask` (emp::MaskUsed(max), which is not part of this model) and rejects
     * values >= max.  The source retries without bound; here at most maxTries
     * attempts are made and `found` says whether one was accepted.
     */
    method GetUInt64Below(max: u64, mask: u64, maxTries: nat) returns (r: u64, found: bool, tries: nat)
      requires maxTries > 0
      modifies this
      ensures KeepsSeed()
      ensures max <= RAND_CAP ==>
                found && tries == 0 && State() == Next(old(State())) &&
                r == UIntBelow(Draw(old(State())), max)
      ensures max > RAND_CAP ==>
                1 <= tries <= maxTries && State() == Advance(old(State()), 2 * tries) &&
                (forall j :: 0 <= j < tries - 1 ==> Candidate(Advance(old(State()), 2 * j), mask) >= max) &&
                r == Candidate(Advance(old(State()), 2 * (tries - 1)), mask) &&
                (found <==> r < max) && (!found ==> tries == maxTries)
      ensures found && max > 0 ==> r < max
    {
      if max <= RAND_CAP {
        var u := GetUIntBelow(max);
        r, found, tries := u, true, 0;
        return;
      }
      r, found, tries := RejectionLoop(max, mask, maxTries);
    }

    /** One attempt of the rejection loop: a 64-bit draw masked to the bits of max. */
    method DrawCandidate(mask: u64) returns (r: u64)
      modifies this
      ensures State() == Advance(old(State()), 2) && KeepsSeed()
      ensures r == Candidate(old(State()), mask)
    {
      var v := GetUInt64();
      r := BitAnd64(v, mask);
    }

    /** The rejection loop of GetUInt64(max) for max above 2^32. */
    method RejectionLoop(max: u64, mask: u64, maxTries: nat) returns (r: u64, found: bool, tries: nat)
      requires maxTries > 0
      modifies this
      ensures KeepsSeed()
      ensures 1 <= tries <= maxTries && State() == Advance(old(State()), 2 * tries)
      ensures forall j :: 0 <= j < tries - 1 ==> Candidate(Advance(old(State()), 2 * j), mask) >= max
      ensures r == Candidate(Advance(old(State()), 2 * (tries - 1)), mask)
      ensures (found <==> r < max) && (!found ==> tries == maxTries)
    {
      ghost var g0 := State();
      r := DrawCandidate(mask);
      tries := 1;
      assert Advance(g0, 0) == g0;
      assert State() == Advance(g0, 2 * tries);
      while r >= max && tries < maxTries
        invariant 1 <= tries <= maxTries
        invariant State() == Advance(g0, 2 * tries) && originalSeed == old(originalSeed) && expRV == old(expRV)
        invariant forall j :: 0 <= j < tries - 1 ==> Candidate(Advance(g0, 2 * j), mask) >= max
        invariant r == Candidate(Advance(g0, 2 * (tries - 1)), mask)
        decreases maxTries - tries
      {
        var t := tries;
        ghost var from := State();
        r := DrawCandidate(mask);
        RejectionStep(g0, mask, max, t, from, State(), r);
        tries := t + 1;
      }
      found := r < max;
    }

    /** P(p): a Bernoulli trial with probability p. */
    method P(p: real) returns (b: bool)
      requires 0.0 <= p <= 1.0
      modifies this
      ensures State() == Next(old(State())) && KeepsSeed()
      ensures b == Bernoulli(Draw(old(State())), p)
      ensures p == 0.0 ==> !b
      ensures p == 1.0 ==> b
    {
      var d := Get();
      b := Bernoulli(d, p);
    }

    /**
     * GetRandBinomial(n, p): ceil(n) Bernoulli trials, counting successes.  The
     * uint32_t loop counter wraps (and the loop never ends) once n exceeds
     * 2^32 - 1, so n is bounded by that.
     */
    method GetRandBinomial(n: real, p: real) returns (k: u32)
      requires 0.0 <= p <= 1.0
      requires 0.0 <= n <= (RAND_CAP - 1) as real
      modifies this
      ensures State() == Advance(old(State()), Ceil(n)) && KeepsSeed()
      ensures k == Successes(Stream(old(State()), Ceil(n)), p)
      ensures k <= Ceil(n)
    {
      ghost var g0 := State();
      k := 0;
      var i: nat := 0;
      while (i as real) < n
        invariant i <= Ceil(n)
        invariant State() == Advance(g0, i) && originalSeed == old(originalSeed) && expRV == old(expRV)
        invariant k == Successes(Stream(g0, i), p)
        decreases Ceil(n) - i
      {
        var b := P(p);
        ghost var s := Stream(g0, i + 1);
        assert s[..i] == Stream(g0, i);
        if b {
          k := k + 1;
        }
        i := i + 1;
      }
    }

    /**
     * GetRandGeometric(p): the number of trials up to and including the first
     * success.  p == 0 returns numeric_limits<uint32_t>::infinity(), which is 0.
     * The source loops without bound; here at most maxTries trials are made
     * and `found` says whether one succeeded.
     */
    method GetRandGeometric(p: real, maxTries: nat) returns (r: u32, found: bool)
      requires 0.0 <= p <= 1.0
      requires 0 < maxTries < RAND_CAP
      modifies this
      ensures KeepsSeed()
      ensures p == 0.0 ==> r == 0 && found && State() == old(State())
      ensures p > 0.0 ==>
                1 <= r <= maxTries && State() == Advance(old(State()), r) &&
                (forall j :: 0 <= j < r - 1 ==> !Bernoulli(Draw(Advance(old(State()), j)), p)) &&
                (found <==> Bernoulli(Draw(Advance(old(State()), r - 1)), p)) &&
                (!found ==> r == maxTries)
    {
      if p == 0.0 {
        return 0, true;
      }
      ghost var g0 := State();
      r := 1;
      found := P(p);
      while !found && r < maxTries
        invariant 1 <= r <= maxTries
        invariant State() == Advance(g0, r) && originalSeed == old(originalSeed) && expRV == old(expRV)
        invariant forall j :: 0 <= j < r - 1 ==> !Bernoulli(Draw(Advance(g0, j)), p)
        invariant found == Bernoulli(Draw(Advance(g0, r - 1)), p)
        decreases maxTries - r
      {
        found := P(p);
        r := r + 1;
      }
    }
  }

  /** One rejection attempt of GetUInt64(max) from state g: a 64-bit draw masked by `mask`. */
  function Candidate(g: Gen, mask: u64): u64
  {
    BitAnd64(Compose64(Draw(g), Draw(Next(g))), mask)
  }

  /** One more rejected attempt: the generator is two steps further on and attempt t is drawn from where it stood. */
  lemma RejectionStep(g0: Gen, mask: u64, max: u64, t: nat, from: Gen, now: Gen, r: u64)
    requires t >= 1 && from == Advance(g0, 2 * t) && now == Advance(from, 2)
    requires forall j :: 0 <= j < t - 1 ==> Candidate(Advance(g0, 2 * j), mask) >= max
    requires Candidate(Advance(g0, 2 * (t - 1)), mask) >= max
    requires r == Candidate(from, mask)
    ensures now == Advance(g0, 2 * (t + 1))
    ensures forall j :: 0 <= j < t ==> Candidate(Advance(g0, 2 * j), mask) >= max
    ensures r == Candidate(Advance(g0, 2 * t), mask)
  {
    AdvanceAdd(g0, 2 * t, 2);
    assert 2 * t + 2 == 2 * (t + 1);
    AllRejectedExtend(g0, mask, max, t);
  }

  /** The first t attempts were rejected if the first t - 1 were and attempt t - 1 was. */
  lemma AllRejectedExtend(g0: Gen, mask: u64, max: u64, t: nat)
    requires t >= 1
    requires forall j :: 0 <= j < t - 1 ==> Candidate(Advance(g0, 2 * j), mask) >= max
    requires Candidate(Advance(g0, 2 * (t - 1)), mask) >= max
    ensures forall j :: 0 <= j < t ==> Candidate(Advance(g0, 2 * j), mask) >= max
  {
    forall j | 0 <= j < t
      ensures Candidate(Advance(g0, 2 * j), mask) >= max
    {
      if j < t - 1 {
      }
    }
  }

  /**
   * sample_with_replacement: fills the whole output range, each slot with the
   * input element at index rng(range).  The generator is taken to be
   * Random::GetUInt(range); RandomStdAdaptor's GetInt(range) agrees with it
   * only for ranges below 2^31 (AdaptorAgreesBelowHalf).
   */
  method SampleWithReplacement<T>(input: seq<T>, out: array<T>, rng: Random)
    requires |input| <= RAND_CAP
    requires out.Length > 0 ==> |input| > 0
    modifies out, rng
    ensures rng.State() == Advance(old(rng.State()), out.Length)
    ensures rng.originalSeed == old(rng.originalSeed) && rng.expRV == old(rng.expRV)
    ensures forall i :: 0 <= i < out.Length ==>
              out[i] == input[UIntBelow(Draw(Advance(old(rng.State()), i)), |input|)]
    ensures forall i :: 0 <= i < out.Length ==> out[i] in input
  {
    ghost var g0 := rng.State();
    for i := 0 to out.Length
      invariant rng.State() == Advance(g0, i)
      invariant rng.originalSeed == old(rng.originalSeed) && rng.expRV == old(rng.expRV)
      invariant forall k :: 0 <= k < i ==> out[k] == input[UIntBelow(Draw(Advance(g0, k)), |input|)]
    {
      var j := rng.GetUIntBelow(|input|);
      out[i] := input[j];
    }
  }

  /** Two generators built from the same positive seed return the same draws, whatever their addresses. */
  method SameSeedSameDraws(seed: i32, entropyA: u64, entropyB: u64, n: nat) returns (xs: seq<u32>, ys: seq<u32>)
    requires seed > 0
    ensures |xs| == n && xs == ys
    ensures xs == Stream(Gen(0, 2 * seed), n)
  {
    var a := new Random(seed, entropyA);
    var b := new Random(seed, entropyB);
    ghost var g0 := Gen(0, 2 * seed);
    xs, ys := [], [];
    for i := 0 to n
      invariant a != b
      invariant a.State() == Advance(g0, i) && b.State() == Advance(g0, i)
      invariant xs == Stream(g0, i) && ys == Stream(g0, i)
    {
      var x := a.Get();
      var y := b.Get();
      xs, ys := xs + [x], ys + [y];
    }
  }
}
