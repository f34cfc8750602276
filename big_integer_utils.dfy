/** Range tests, successor/predecessor and rejection sampling over arbitrary-precision integers. */
module BigIntegerUtils {
  import opened Outcomes

  /** isInRange: lowerInclusive <= value < upperExclusive; a null argument is rejected. */
  function IsInRange(value: Option<int>, lowerInclusive: Option<int>, upperExclusive: Option<int>): (r: Result<bool>)
    ensures r.Err? <==> value.None? || lowerInclusive.None? || upperExclusive.None?
    ensures r.Err? ==> r.error == NullArgument
    ensures r.Ok? ==> (r.value <==> lowerInclusive.value <= value.value < upperExclusive.value)
  {
    if value.None? || lowerInclusive.None? || upperExclusive.None? then Err(NullArgument)
    else Ok(value.value >= lowerInclusive.value && value.value < upperExclusive.value)
  }

  /** isInRangeInclusive: lowerInclusive <= value <= upperInclusive; a null argument is rejected. */
  function IsInRangeInclusive(value: Option<int>, lowerInclusive: Option<int>, upperInclusive: Option<int>): (r: Result<bool>)
    ensures r.Err? <==> value.None? || lowerInclusive.None? || upperInclusive.None?
    ensures r.Err? ==> r.error == NullArgument
    ensures r.Ok? ==> (r.value <==> lowerInclusive.value <= value.value <= upperInclusive.value)
  {
    if value.None? || lowerInclusive.None? || upperInclusive.None? then Err(NullArgument)
    else Ok(value.value >= lowerInclusive.value && value.value <= upperInclusive.value)
  }

  /** increment: the successor, one above the value. */
  function Increment(value: int): (r: int)
    ensures value < r && r - value == 1
  {
    value + 1
  }

  /** decrement: the predecessor, which increment maps back to the value. */
  function Decrement(value: int): (r: int)
    ensures r < value && Increment(r) == value
  {
    value - 1
  }

  /** The half-open test is the closed test narrowed by one at the top, and implies it. */
  lemma InRangeIsInclusiveRangeBelowUpper(value: int, lower: int, upper: int)
    ensures IsInRange(Some(value), Some(lower), Some(upper)) == Ok(true)
            ==> IsInRangeInclusive(Some(value), Some(lower), Some(upper)) == Ok(true)
    ensures IsInRange(Some(value), Some(lower), Some(upper))
            == IsInRangeInclusive(Some(value), Some(lower), Some(Decrement(upper)))
    ensures IsInRangeInclusive(Some(value), Some(lower), Some(upper))
            == IsInRange(Some(value), Some(lower), Some(Increment(upper)))
  {
  }

  /** Increment and decrement undo each other. */
  lemma IncrementDecrementRoundTrip(value: int)
    ensures Decrement(Increment(value)) == value
    ensures Increment(Decrement(value)) == value
    ensures Increment(value) > value > Decrement(value)
  {
  }

  function Pow2(k: nat): (r: nat)
    ensures r >= 1
  {
    if k == 0 then 1 else 2 * Pow2(k - 1)
  }

  /** BigInteger.bitLength: the bits of the minimal two's-complement form, without a sign bit.
      For a non-negative value it is the least width whose powers of two exceed the value. */
  function BitLength(x: int): (r: nat)
    ensures x >= 0 ==> x < Pow2(r)
    ensures x > 0 ==> r >= 1 && Pow2(r - 1) <= x
    ensures x == 0 ==> r == 0
    decreases if x < 0 then -x else x
  {
    if x < 0 then BitLength(-x - 1)
    else if x == 0 then 0
    else 1 + BitLength(x / 2)
  }

  /** A source of random bits: `draw(k)` is the raw value behind the k-th call of
      `new BigInteger(numBits, random)`. */
  datatype RandomSource = RandomSource(draw: nat -> int)

  /** The k-th candidate of width `bits`: uniform over [0, 2^bits) in the source. */
  function Candidate(source: RandomSource, bits: nat, k: nat): (r: int)
    ensures 0 <= r < Pow2(bits)
  {
    source.draw(k) % Pow2(bits)
  }

  /** With a bound of at most zero no candidate is ever accepted: the loop of `Random` would not end. */
  lemma NonPositiveBoundRejectsEveryCandidate(bound: int, source: RandomSource, k: nat)
    requires bound <= 0
    ensures Candidate(source, BitLength(bound), k) >= bound
  {
  }

  /** With a positive bound every value below it is a possible candidate, and at least half of the
      candidates are accepted (exactly half when the bound is a power of two):
      bound < 2^bitLength(bound) <= 2 * bound. */
  lemma AcceptanceAtLeastOneHalf(bound: int)
    requires bound > 0
    ensures bound < Pow2(BitLength(bound)) <= 2 * bound
  {
    var w := BitLength(bound);
    assert Pow2(w) == 2 * Pow2(w - 1);
  }

  /** The k-th candidate is `value`, it lies below the bound, and every earlier candidate was rejected. */
  ghost predicate FirstAccepted(source: RandomSource, bound: int, k: nat, value: int)
  {
    && value == Candidate(source, BitLength(bound), k)
    && value < bound
    && forall j :: 0 <= j < k ==> Candidate(source, BitLength(bound), j) >= bound
  }

  /** random(boundExclusive, random): draws candidates of the bound's bit length until one lies below
      the bound. `accepted` is a draw at which the source yields such a candidate; it exists with
      probability one when the bound is positive, and never when it is not. */
  method Random(boundExclusive: Option<int>, random: Option<RandomSource>, ghost accepted: nat) returns (r: Result<int>)
    requires boundExclusive.Some? && random.Some?
             ==> Candidate(random.value, BitLength(boundExclusive.value), accepted) < boundExclusive.value
    ensures r.Err? <==> boundExclusive.None? || random.None?
    ensures r.Err? ==> r.error == NullArgument
    ensures r.Ok? ==> 0 <= r.value < boundExclusive.value
    ensures r.Ok? ==> exists k :: 0 <= k <= accepted && FirstAccepted(random.value, boundExclusive.value, k, r.value)
  {
    if boundExclusive.None? || random.None? {
      return Err(NullArgument);
    }
    var bound, source := boundExclusive.value, random.value;
    var bits := BitLength(bound);
    var k := 0;
    var result := Candidate(source, bits, k);
    while result >= bound
      invariant k <= accepted
      invariant result == Candidate(source, bits, k)
      invariant forall j :: 0 <= j < k ==> Candidate(source, bits, j) >= bound
      decreases accepted - k
    {
      k := k + 1;
      result := Candidate(source, bits, k);
    }
    assert FirstAccepted(source, bound, k, result);
    r := Ok(result);
  }
}
