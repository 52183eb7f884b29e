/** Proof-of-work consensus: the difficulty adjustment, the nonce test,
    the mining loop, block verification and the genesis block.

    The block digest (blake2b over header, difficulty and nonce) is a
    parameter `blockHash`; wall-clock readings are given as a sequence of
    timestamps. Timestamps are nanoseconds since the Unix epoch (UTC), the
    resolution of chrono's `DateTime<Utc>`. The arithmetic is that of a
    release build: signed 64-bit overflow wraps, `as` casts reinterpret the
    bits, and integer division truncates toward zero. */
module Pow {
  import opened Common

  const TWO_POW_63: int := 0x8000_0000_0000_0000
  const NANOS_PER_SEC: int := 1_000_000_000

  /** The constants of the difficulty rule. */
  const DIFF_BOUND_DIVISOR: int := 2048
  const DURATION_LIMIT: int := 10
  const MIN_COEFF: int := -99

  /** Nanoseconds since 1970-01-01T00:00:00Z. */
  type Timestamp = int

  datatype BlockHeader = BlockHeader(
    height: U64,
    prevBlkHash: H256,
    timeStamp: Timestamp,
    txList: seq<H256>,
    stateRoot: H256)

  datatype Block = Block(header: BlockHeader, diff: U64, nonce: U256)

  datatype ConsensusError = InvalidDifficulty | InvalidNonce

  /* ---------------------------------------------------------------------
     Machine arithmetic
     --------------------------------------------------------------------- */

  /** Two's-complement wrap-around to `i64`. */
  function WrapI64(x: int): (r: int)
    ensures -TWO_POW_63 <= r < TWO_POW_63
    ensures (x - r) % TWO_POW_64 == 0
    ensures -TWO_POW_63 <= x < TWO_POW_63 ==> r == x
  {
    (x + TWO_POW_63) % TWO_POW_64 - TWO_POW_63
  }

  /** `as u64` of a signed value: the same bits, read unsigned. */
  function AsU64(x: int): (r: U64)
    ensures (x - r) % TWO_POW_64 == 0
    ensures 0 <= x < TWO_POW_64 ==> r == x
    ensures -TWO_POW_63 <= x < 0 ==> r == x + TWO_POW_64
  {
    x % TWO_POW_64
  }

  /** Rust's `/` on signed integers: the quotient rounded toward zero. */
  function TruncDiv(a: int, b: int): (q: int)
    requires b > 0
    ensures a >= 0 ==> 0 <= q * b <= a < q * b + b
    ensures a < 0 ==> q * b - b < a <= q * b <= 0
  {
    if a >= 0 then
      FloorDivBounds(a, b);
      a / b
    else
      FloorDivBounds(-a, b);
      -((-a) / b)
  }

  lemma FloorDivBounds(a: int, b: int)
    requires a >= 0 && b > 0
    ensures 0 <= (a / b) * b <= a < (a / b) * b + b
  {
    var q, m := a / b, a % b;
    assert a == q * b + m && 0 <= m < b;
    assert q >= 0;
  }

  function Max(a: int, b: int): int
  {
    if a >= b then a else b
  }

  /* ---------------------------------------------------------------------
     compute_diff
     --------------------------------------------------------------------- */

  /** chrono's `num_seconds` of `ts - prevTs`: whole seconds, rounded toward zero. */
  function TimeSpanSeconds(ts: Timestamp, prevTs: Timestamp): int
  {
    TruncDiv(ts - prevTs, NANOS_PER_SEC)
  }

  /** The adjustment factor `max(1 - span / 10, -99)`. Within chrono's
      range of instants `1 - span / 10` stays inside `i64`. */
  function Coeff(span: int): (c: int)
    ensures c >= MIN_COEFF
    ensures c <= 1 <==> span > -DURATION_LIMIT
  {
    Max(1 - TruncDiv(span, DURATION_LIMIT), MIN_COEFF)
  }

  /** The difficulty that follows `prevDiff` after `span` seconds. */
  function DiffFromSpan(prevDiff: U64, span: int): U64
  {
    var prev := WrapI64(prevDiff);
    var delta := TruncDiv(prev, DIFF_BOUND_DIVISOR);
    AsU64(WrapI64(prev + WrapI64(delta * Coeff(span))))
  }

  /** `compute_diff(time_stamp, prev_blk)`. */
  function ComputeDiff(ts: Timestamp, prev: Block): U64
  {
    DiffFromSpan(prev.diff, TimeSpanSeconds(ts, prev.header.timeStamp))
  }

  /** The parent-difficulty adjustment of EIP-2's Homestead rule (item 4
      of its Specification section), `parent_diff + parent_diff // 2048 *
      max(1 - span // 10, -99)`, with floor division (Dafny's `/` on a
      positive divisor) and no machine-width arithmetic. The full Homestead
      difficulty also adds the exponential term
      `2 ** ((block.number // 100000) - 2)` and is bounded below by a
      minimum difficulty; neither this function nor `compute_diff` has
      either. */
  function HomesteadDiff(prevDiff: nat, span: int): int
  {
    prevDiff + (prevDiff / DIFF_BOUND_DIVISOR) * Max(1 - span / DURATION_LIMIT, MIN_COEFF)
  }

  lemma MulBounds(delta: int, c: int)
    requires delta >= 0 && MIN_COEFF <= c <= 1
    ensures MIN_COEFF * delta <= delta * c <= delta
  {
    if c >= 0 {
      assert delta * c <= delta * 1;
    } else {
      assert delta * c >= delta * MIN_COEFF;
    }
  }

  /** A value in `u64` range that `i64` arithmetic wrapped to a negative
      number is restored by `as u64`. */
  lemma AsU64UndoesWrap(x: int)
    requires 0 <= x < TWO_POW_64
    ensures AsU64(WrapI64(x)) == x
  {
    if x >= TWO_POW_63 {
      assert WrapI64(x) == x - TWO_POW_64;
    }
  }

  /** For every difficulty that `as i64` leaves non-negative, that is below
      2^63, and a span above -10 seconds, the result is exactly
      `prev + (prev / 2048) * coeff`, between `prev - 99 * (prev / 2048)`
      and `prev + prev / 2048`. The `i64` sum may wrap near 2^63; the
      final `as u64` restores it. */
  lemma DiffFromSpanExact(prevDiff: U64, span: int)
    requires prevDiff < TWO_POW_63 && span > -DURATION_LIMIT
    ensures DiffFromSpan(prevDiff, span) == prevDiff + (prevDiff / DIFF_BOUND_DIVISOR) * Coeff(span)
    ensures prevDiff + MIN_COEFF * (prevDiff / DIFF_BOUND_DIVISOR) <= DiffFromSpan(prevDiff, span)
    ensures DiffFromSpan(prevDiff, span) <= prevDiff + prevDiff / DIFF_BOUND_DIVISOR
  {
    var delta := prevDiff / DIFF_BOUND_DIVISOR;
    var c := Coeff(span);
    assert TruncDiv(prevDiff, DIFF_BOUND_DIVISOR) == delta;
    MulBounds(delta, c);
    FloorDivBounds(prevDiff, DIFF_BOUND_DIVISOR);
    assert 0 <= prevDiff + delta * c < TWO_POW_64;
    AsU64UndoesWrap(prevDiff + delta * c);
  }

  /** Near the top of that range the `i64` sum does wrap: a block within
      ten seconds of a parent of difficulty `2^63 - 1` takes the sum past
      `i64::MAX`, and `as u64` still gives `prev + prev / 2048`. */
  lemma SumWrapsNearTop()
    ensures WrapI64(TWO_POW_63 - 1 + (TWO_POW_63 - 1) / DIFF_BOUND_DIVISOR) < 0
    ensures DiffFromSpan(TWO_POW_63 - 1, 0) == TWO_POW_63 - 1 + (TWO_POW_63 - 1) / DIFF_BOUND_DIVISOR
  {
    FastBlockRaisesDiff(TWO_POW_63 - 1, 0);
  }

  /** A block less than ten seconds after its parent raises the difficulty
      by `prev / 2048`. */
  lemma FastBlockRaisesDiff(prevDiff: U64, span: int)
    requires prevDiff < TWO_POW_63 && 0 <= span < DURATION_LIMIT
    ensures DiffFromSpan(prevDiff, span) == prevDiff + prevDiff / DIFF_BOUND_DIVISOR
  {
    DiffFromSpanExact(prevDiff, span);
    assert Coeff(span) == 1;
  }

  /** Ten to nineteen seconds keeps the difficulty. */
  lemma SteadyBlockKeepsDiff(prevDiff: U64, span: int)
    requires prevDiff < TWO_POW_63 && DURATION_LIMIT <= span < 2 * DURATION_LIMIT
    ensures DiffFromSpan(prevDiff, span) == prevDiff
  {
    DiffFromSpanExact(prevDiff, span);
    assert Coeff(span) == 0;
  }

  /** From 1000 seconds on, the difficulty drops by the largest step,
      `99 * (prev / 2048)`, and no further. */
  lemma SlowBlockHitsFloor(prevDiff: U64, span: int)
    requires prevDiff < TWO_POW_63 && span >= 100 * DURATION_LIMIT
    ensures DiffFromSpan(prevDiff, span) == prevDiff + MIN_COEFF * (prevDiff / DIFF_BOUND_DIVISOR)
  {
    DiffFromSpanExact(prevDiff, span);
    assert TruncDiv(span, DURATION_LIMIT) >= 100;
    assert Coeff(span) == MIN_COEFF;
  }

  /** A positive difficulty stays positive, so the nonce test that follows
      never divides by zero. */
  lemma DiffStaysPositive(prevDiff: U64, span: int)
    requires 0 < prevDiff < TWO_POW_63 && span > -DURATION_LIMIT
    ensures DiffFromSpan(prevDiff, span) > 0
  {
    DiffFromSpanExact(prevDiff, span);
    var delta := prevDiff / DIFF_BOUND_DIVISOR;
    assert DIFF_BOUND_DIVISOR * delta <= prevDiff;
  }

  /** For spans that are not negative the rule agrees with Homestead. */
  lemma AgreesWithHomestead(prevDiff: U64, span: int)
    requires prevDiff < TWO_POW_63 && span >= 0
    ensures DiffFromSpan(prevDiff, span) == HomesteadDiff(prevDiff, span)
  {
    DiffFromSpanExact(prevDiff, span);
    assert TruncDiv(span, DURATION_LIMIT) == span / DURATION_LIMIT;
  }

  /** A block stamped one second before its parent: truncation gives the
      coefficient 1 where Homestead's floor division gives 2. */
  lemma DiffersFromHomesteadBeforeParent()
    ensures DiffFromSpan(2048, -1) == 2049
    ensures HomesteadDiff(2048, -1) == 2050
  {
    assert TruncDiv(-1, DURATION_LIMIT) == 0;
    assert Coeff(-1) == 1;
    assert WrapI64(2048) == 2048;
    assert TruncDiv(2048, DIFF_BOUND_DIVISOR) == 1;
    assert WrapI64(2049) == 2049;
    assert -1 / DURATION_LIMIT == -1;
  }

  /** Nothing bounds how far before its parent a block may be stamped, and
      the coefficient grows without limit as the span goes negative, so
      `delta * coeff` wraps: a timestamp about 10,900 years before the
      parent turns the difficulty 2^40 into 2^29. */
  lemma FarPastTimestampWrapsDiff()
    ensures DiffFromSpan(0x100_0000_0000, -343_597_363_200) == 0x2000_0000
  {
    var span := -343_597_363_200;
    var delta := 0x2000_0000;
    var c := 34_359_736_321;
    assert TruncDiv(span, DURATION_LIMIT) == -34_359_736_320;
    assert Coeff(span) == c;
    assert WrapI64(0x100_0000_0000) == 0x100_0000_0000;
    assert TruncDiv(0x100_0000_0000, DIFF_BOUND_DIVISOR) == delta;
    assert delta * c == TWO_POW_64 - 2047 * delta;
    assert WrapI64(delta * c) == -2047 * delta;
    assert WrapI64(0x100_0000_0000 - 2047 * delta) == delta;
  }

  /** Ten seconds later the product wraps to exactly `-prev`: a timestamp
      343,597,363,190 seconds before a parent of difficulty 2^40 gives the
      difficulty 0. */
  lemma FarPastTimestampZeroesDiff()
    ensures DiffFromSpan(0x100_0000_0000, -343_597_363_190) == 0
  {
    var span := -343_597_363_190;
    var delta := 0x2000_0000;
    var c := 34_359_736_320;
    assert TruncDiv(span, DURATION_LIMIT) == -34_359_736_319;
    assert Coeff(span) == c;
    assert WrapI64(0x100_0000_0000) == 0x100_0000_0000;
    assert TruncDiv(0x100_0000_0000, DIFF_BOUND_DIVISOR) == delta;
    assert delta * c == TWO_POW_64 - 0x100_0000_0000;
    assert WrapI64(delta * c) == -0x100_0000_0000;
  }

  /* ---------------------------------------------------------------------
     nonce_is_valid and verify_consensus
     --------------------------------------------------------------------- */

  /** `nonce_is_valid` in a release build: the digest, read as a number, is
      at most `U256::MAX / diff`. A zero difficulty makes the division panic. */
  predicate NonceIsValid(blk: Block, blockHash: Block -> H256)
    requires blk.diff > 0
  {
    blockHash(blk) <= U256_MAX / blk.diff
  }

  /** The threshold test is the bound `hash * diff <= U256::MAX`: a
      difficulty `d` accepts about one digest in `d`. */
  lemma ThresholdMeaning(hash: H256, diff: int)
    requires diff > 0
    ensures hash <= U256_MAX / diff <==> hash * diff <= U256_MAX
  {
    DivThreshold(hash, diff, U256_MAX);
  }

  lemma DivThreshold(h: nat, d: int, m: nat)
    requires d > 0
    ensures h <= m / d <==> h * d <= m
  {
    var q := m / d;
    FloorDivBounds(m, d);
    if h <= q {
      MulMonotone(h, q, d);
    } else {
      MulMonotone(q + 1, h, d);
    }
  }

  lemma MulMonotone(a: int, b: int, c: nat)
    requires a <= b
    ensures a * c <= b * c
  {
    assert b * c - a * c == (b - a) * c;
  }

  /** The threshold `U256::MAX / diff` falls as the difficulty rises: a
      digest under the threshold of a higher difficulty is under that of
      every lower one. */
  lemma LowerDiffAcceptsMore(hash: H256, lower: int, higher: int)
    requires 0 < lower <= higher
    ensures hash <= U256_MAX / higher ==> hash <= U256_MAX / lower
  {
    ThresholdMeaning(hash, higher);
    ThresholdMeaning(hash, lower);
    MulMonotone(lower, higher, hash);
  }

  /** `verify_consensus`: the difficulty must be the one `compute_diff`
      gives for the block's own timestamp, then the nonce must pass. The
      nonce test runs only when the difficulty check passed, and it panics
      on a zero difficulty. */
  function VerifyConsensus(blk: Block, prev: Block, blockHash: Block -> H256): (r: Result<(), ConsensusError>)
    requires blk.diff == ComputeDiff(blk.header.timeStamp, prev) ==> blk.diff > 0
    ensures r == Err(InvalidDifficulty) <==> blk.diff != ComputeDiff(blk.header.timeStamp, prev)
    ensures r.Ok? <==> blk.diff == ComputeDiff(blk.header.timeStamp, prev) && blockHash(blk) * blk.diff <= U256_MAX
  {
    if blk.diff != ComputeDiff(blk.header.timeStamp, prev) then Err(InvalidDifficulty)
    else
      ThresholdMeaning(blockHash(blk), blk.diff);
      if !NonceIsValid(blk, blockHash) then Err(InvalidNonce)
      else Ok(())
  }

  /** `verify_consensus` as evidently intended: a zero difficulty is
      rejected as an invalid difficulty before the nonce test divides by
      it. */
  function VerifyConsensusChecked(blk: Block, prev: Block, blockHash: Block -> H256): (r: Result<(), ConsensusError>)
    ensures r == Err(InvalidDifficulty) <==> blk.diff != ComputeDiff(blk.header.timeStamp, prev) || blk.diff == 0
    ensures r.Ok? <==> && blk.diff == ComputeDiff(blk.header.timeStamp, prev) && blk.diff > 0
                       && blockHash(blk) * blk.diff <= U256_MAX
  {
    if blk.diff != ComputeDiff(blk.header.timeStamp, prev) || blk.diff == 0 then Err(InvalidDifficulty)
    else VerifyConsensus(blk, prev, blockHash)
  }

  /** Wherever `verify_consensus` does not panic, the checked version gives
      the same verdict. */
  lemma CheckedAgreesWhereSourceIsDefined(blk: Block, prev: Block, blockHash: Block -> H256)
    requires blk.diff == ComputeDiff(blk.header.timeStamp, prev) ==> blk.diff > 0
    ensures VerifyConsensusChecked(blk, prev, blockHash) == VerifyConsensus(blk, prev, blockHash)
  {
  }

  /** The difficulty test lets a zero difficulty through. A parent of
      difficulty 2^40 and a block stamped 343,597,363,190 seconds before it
      make `compute_diff` return 0, so a block claiming difficulty 0 passes
      the first test of `verify_consensus` and the nonce test then divides
      `U256::MAX` by zero: the block lies outside what `VerifyConsensus`
      accepts. The checked version rejects it. */
  lemma ZeroDifficultyPassesDifficultyCheck(prev: Block, blk: Block, blockHash: Block -> H256)
    requires prev.diff == 0x100_0000_0000
    requires blk.header.timeStamp == prev.header.timeStamp - 343_597_363_190 * NANOS_PER_SEC
    requires blk.diff == 0
    ensures blk.diff == ComputeDiff(blk.header.timeStamp, prev)
    ensures VerifyConsensusChecked(blk, prev, blockHash) == Err(InvalidDifficulty)
  {
    assert TimeSpanSeconds(blk.header.timeStamp, prev.header.timeStamp) == -343_597_363_190;
    FarPastTimestampZeroesDiff();
  }

  /* ---------------------------------------------------------------------
     create_new_block
     --------------------------------------------------------------------- */

  /** The block the mining loop holds after `k` rounds: the first round
      uses the header's own timestamp, round `k` the `k`-th clock reading;
      the difficulty is recomputed for that timestamp and the nonce counts
      the rounds. */
  function Attempt(header: BlockHeader, prev: Block, clock: seq<Timestamp>, k: nat): (b: Block)
    requires k <= |clock| && k < TWO_POW_256
    ensures b.header == header.(timeStamp := b.header.timeStamp)
    ensures b.diff == ComputeDiff(b.header.timeStamp, prev)
    ensures b.nonce == k
  {
    var ts := if k == 0 then header.timeStamp else clock[k - 1];
    Block(header.(timeStamp := ts), ComputeDiff(ts, prev), k)
  }

  /** `create_new_block`. The source loops until a nonce passes; here the
      successive readings of `Utc::now()` are `clock`, and the search gives
      up with `None` once they run out. The source panics on a zero
      difficulty (in the nonce test) and on a nonce overflow; the
      requires exclude both. */
  method CreateNewBlock(header: BlockHeader, prev: Block, clock: seq<Timestamp>, blockHash: Block -> H256)
    returns (r: Option<Block>)
    requires |clock| < TWO_POW_256
    requires forall k :: 0 <= k <= |clock| ==> Attempt(header, prev, clock, k).diff > 0
    ensures r.Some? ==> r.value.nonce <= |clock| && r.value == Attempt(header, prev, clock, r.value.nonce)
    ensures r.Some? ==> r.value.header == header.(timeStamp := r.value.header.timeStamp)
    ensures r.Some? ==> VerifyConsensus(r.value, prev, blockHash) == Ok(())
    ensures r.Some? ==> VerifyConsensusChecked(r.value, prev, blockHash) == Ok(())
    ensures r.Some? ==> forall k :: 0 <= k < r.value.nonce ==> !NonceIsValid(Attempt(header, prev, clock, k), blockHash)
    ensures r.None? <==> forall k :: 0 <= k <= |clock| ==> !NonceIsValid(Attempt(header, prev, clock, k), blockHash)
  {
    var blk := Block(header, ComputeDiff(header.timeStamp, prev), 0);
    var rounds := 0;
    assert blk == Attempt(header, prev, clock, 0);
    while !NonceIsValid(blk, blockHash) && rounds < |clock|
      invariant 0 <= rounds <= |clock|
      invariant blk == Attempt(header, prev, clock, rounds)
      invariant forall k :: 0 <= k < rounds ==> !NonceIsValid(Attempt(header, prev, clock, k), blockHash)
      decreases |clock| - rounds
    {
      blk := blk.(header := blk.header.(timeStamp := clock[rounds]));
      blk := blk.(diff := ComputeDiff(blk.header.timeStamp, prev));
      blk := blk.(nonce := blk.nonce + 1);
      rounds := rounds + 1;
    }
    if NonceIsValid(blk, blockHash) {
      r := Some(blk);
    } else {
      r := None;
    }
  }

  /** On a chain whose parent difficulty is positive and below 2^63, and
      whose clock never reads earlier than the parent's timestamp, every
      round of the search has a positive difficulty. */
  lemma SaneClockKeepsDiffPositive(header: BlockHeader, prev: Block, clock: seq<Timestamp>)
    requires |clock| < TWO_POW_256
    requires 0 < prev.diff < TWO_POW_63
    requires header.timeStamp >= prev.header.timeStamp
    requires forall i :: 0 <= i < |clock| ==> clock[i] >= prev.header.timeStamp
    ensures forall k :: 0 <= k <= |clock| ==> Attempt(header, prev, clock, k).diff > 0
  {
    forall k | 0 <= k <= |clock|
      ensures Attempt(header, prev, clock, k).diff > 0
    {
      var b := Attempt(header, prev, clock, k);
      DiffStaysPositive(prev.diff, TimeSpanSeconds(b.header.timeStamp, prev.header.timeStamp));
    }
  }

  /* ---------------------------------------------------------------------
     genesis_block
     --------------------------------------------------------------------- */

  /** The genesis timestamp, as written in RFC 3339. */
  const GENESIS_TIME_TEXT: string := "2020-08-01T00:00:00Z"

  /** Days from 0000-03-01 to March 1 of year `y` of the proleptic
      Gregorian calendar, counted in 400-year eras of 146,097 days. */
  function DaysToMarch(y: int): int
  {
    var era := y / 400;
    EraDays(era, y - era * 400)
  }

  /** Days from 0000-03-01 to March 1 of year `yoe` of era `era`. */
  function EraDays(era: int, yoe: int): int
  {
    era * 146097 + yoe * 365 + yoe / 4 - yoe / 100
  }

  /** Days from 1970-01-01 to the given proleptic Gregorian date, counting
      years from March so that the leap day ends the year. */
  function DaysFromCivil(year: int, month: int, day: int): int
    requires 1 <= month <= 12
  {
    var y := if month <= 2 then year - 1 else year;
    var mp := if month > 2 then month - 3 else month + 9;
    var doy := (153 * mp + 2) / 5 + day - 1;
    DaysToMarch(y) + doy - 719468
  }

  predicate IsLeapYear(year: int)
  {
    year % 4 == 0 && (year % 100 != 0 || year % 400 == 0)
  }

  function DaysInMonth(year: int, month: int): int
    requires 1 <= month <= 12
  {
    if month == 2 then (if IsLeapYear(year) then 29 else 28)
    else if month == 4 || month == 6 || month == 9 || month == 11 then 30
    else 31
  }

  function YearLength(year: int): int
  {
    if IsLeapYear(year) then 366 else 365
  }

  /** The reference day count: days from 1970-01-01 to January 1 of
      `year`, one year at a time. */
  function DaysBeforeYear(year: int): int
    decreases if year >= 1970 then year - 1970 else 1970 - year
  {
    if year == 1970 then 0
    else if year > 1970 then DaysBeforeYear(year - 1) + YearLength(year - 1)
    else DaysBeforeYear(year + 1) - YearLength(year)
  }

  /** Days from January 1 to the first of `month`, one month at a time. */
  function DaysBeforeMonth(year: int, month: int): int
    requires 1 <= month <= 12
  {
    if month == 1 then 0 else DaysBeforeMonth(year, month - 1) + DaysInMonth(year, month - 1)
  }

  function DayNumber(year: int, month: int, day: int): int
    requires 1 <= month <= 12
  {
    DaysBeforeYear(year) + DaysBeforeMonth(year, month) + (day - 1)
  }

  /** The leap-year tests see only a year's place in its 400-year era. */
  lemma EraSplit(y: int, era: int, yoe: int)
    requires y == era * 400 + yoe && 0 <= yoe < 400
    ensures y % 4 == yoe % 4 && y % 100 == yoe % 100 && y % 400 == yoe
  {
    RemainderFour(y, era * 100 + yoe / 4, yoe % 4);
    RemainderHundred(y, era * 4 + yoe / 100, yoe % 100);
    RemainderEra(y, era, yoe);
  }

  lemma RemainderFour(y: int, q: int, r: int)
    requires y == q * 4 + r && 0 <= r < 4
    ensures y % 4 == r
  {
  }

  lemma RemainderHundred(y: int, q: int, r: int)
    requires y == q * 100 + r && 0 <= r < 100
    ensures y % 100 == r
  {
  }

  lemma RemainderEra(y: int, q: int, r: int)
    requires y == q * 400 + r && 0 <= r < 400
    ensures y % 400 == r
  {
  }

  /** `DaysToMarch` of a year given by its era and its year of the era. */
  lemma DaysToMarchOfEra(y: int, era: int, yoe: int)
    requires y == era * 400 + yoe && 0 <= yoe < 400
    ensures DaysToMarch(y) == EraDays(era, yoe)
  {
    assert y / 400 == era;
  }

  /** Within the era's day count, year `yoe` is a leap year when `yoe` is
      a multiple of 4 but not of 100, or is 0. */
  lemma YearOfEraLength(era: int, yoe: int)
    requires 0 <= yoe < 400
    ensures EraDays(era, yoe) - (if yoe == 0 then EraDays(era - 1, 399) else EraDays(era, yoe - 1))
         == if yoe % 4 == 0 && (yoe % 100 != 0 || yoe == 0) then 366 else 365
  {
  }

  /** From March 1 of `y - 1` to March 1 of `y` is the length of year `y`,
      whose February lies in between. */
  lemma MarchToMarch(y: int)
    ensures DaysToMarch(y) - DaysToMarch(y - 1) == YearLength(y)
  {
    var era := y / 400;
    var yoe := y - era * 400;
    DaysToMarchOfEra(y, era, yoe);
    EraSplit(y, era, yoe);
    YearOfEraLength(era, yoe);
    if yoe == 0 {
      DaysToMarchOfEra(y - 1, era - 1, 399);
    } else {
      DaysToMarchOfEra(y - 1, era, yoe - 1);
    }
  }

  lemma {:induction false} NewYears(year: int)
    ensures DaysFromCivil(year, 1, 1) == DaysBeforeYear(year)
    decreases if year >= 1970 then year - 1970 else 1970 - year
  {
    if year > 1970 {
      NewYears(year - 1);
      MarchToMarch(year - 1);
    } else if year < 1970 {
      NewYears(year + 1);
      MarchToMarch(year);
    }
  }

  /** The first of `month` is the first of the month before plus that
      month's length. */
  lemma MonthStep(year: int, month: int)
    requires 2 <= month <= 12
    ensures DaysFromCivil(year, month, 1) == DaysFromCivil(year, month - 1, 1) + DaysInMonth(year, month - 1)
  {
    if month == 3 {
      MarchToMarch(year);
    }
  }

  lemma {:induction false} FirstOfMonth(year: int, month: int)
    requires 1 <= month <= 12
    ensures DaysFromCivil(year, month, 1) == DaysFromCivil(year, 1, 1) + DaysBeforeMonth(year, month)
  {
    if month > 1 {
      FirstOfMonth(year, month - 1);
      MonthStep(year, month);
    }
  }

  /** The closed formula counts days as the calendar does, for every year
      before or after the epoch. */
  lemma DaysFromCivilCountsDays(year: int, month: int, day: int)
    requires 1 <= month <= 12
    ensures DaysFromCivil(year, month, day) == DayNumber(year, month, day)
  {
    NewYears(year);
    FirstOfMonth(year, month);
  }

  function DigitValue(c: char): Option<nat>
  {
    if '0' <= c <= '9' then Some(c as int - '0' as int) else None
  }

  /** A run of decimal digits, read as a number. */
  function ParseDigits(s: string): (r: Option<nat>)
    ensures r.Some? <==> forall i :: 0 <= i < |s| ==> DigitValue(s[i]).Some?
  {
    if |s| == 0 then Some(0)
    else
      match (ParseDigits(s[..|s| - 1]), DigitValue(s[|s| - 1]))
      case (Some(high), Some(low)) => Some(high * 10 + low)
      case _ => None
  }

  /** The fields of a calendar date and time of day, UTC. */
  datatype CivilTime = CivilTime(year: nat, month: nat, day: nat, hour: nat, minute: nat, second: nat)

  /** The fields of RFC 3339 text of the form `YYYY-MM-DDTHH:MM:SSZ`, not
      yet checked for range. */
  function ParseFields(s: string): Option<CivilTime>
  {
    if |s| != 20 || s[4] != '-' || s[7] != '-' || s[10] != 'T' || s[13] != ':' || s[16] != ':' || s[19] != 'Z' then None
    else
      match (ParseDigits(s[0..4]), ParseDigits(s[5..7]), ParseDigits(s[8..10]),
             ParseDigits(s[11..13]), ParseDigits(s[14..16]), ParseDigits(s[17..19]))
      case (Some(year), Some(month), Some(day), Some(hour), Some(minute), Some(second)) =>
        Some(CivilTime(year, month, day, hour, minute, second))
      case _ => None
  }

  predicate ValidCivilTime(t: CivilTime)
  {
    1 <= t.month <= 12 && 1 <= t.day <= DaysInMonth(t.year, t.month) && t.hour < 24 && t.minute < 60 && t.second < 60
  }

  function EpochSeconds(t: CivilTime): int
    requires ValidCivilTime(t)
  {
    DaysFromCivil(t.year, t.month, t.day) * 86400 + t.hour * 3600 + t.minute * 60 + t.second
  }

  /** The seconds since the epoch of an RFC 3339 instant of the form
      `YYYY-MM-DDTHH:MM:SSZ`; `None` for text of another form or a date or
      time out of range. */
  function ParseRfc3339Utc(s: string): Option<int>
  {
    match ParseFields(s)
    case Some(t) => if ValidCivilTime(t) then Some(EpochSeconds(t)) else None
    case None => None
  }

  /** Two digits read as a number. */
  lemma ParseTwoDigits(s: string)
    requires |s| == 2 && DigitValue(s[0]).Some? && DigitValue(s[1]).Some?
    ensures ParseDigits(s) == Some(DigitValue(s[0]).value * 10 + DigitValue(s[1]).value)
  {
    assert ParseDigits(s[..1][..0]) == Some(0);
    assert ParseDigits(s[..1]) == Some(DigitValue(s[0]).value);
  }

  /** Four digits read as a number. */
  lemma ParseFourDigits(s: string)
    requires |s| == 4 && forall i :: 0 <= i < 4 ==> DigitValue(s[i]).Some?
    ensures ParseDigits(s) == Some(ParseDigits(s[..2]).value * 100 + DigitValue(s[2]).value * 10 + DigitValue(s[3]).value)
  {
    assert s[..3][..2] == s[..2];
    assert ParseDigits(s[..3]) == Some(ParseDigits(s[..2]).value * 10 + DigitValue(s[2]).value);
  }

  /** Text with the separators in place and six digit fields parses to
      those fields. */
  lemma FieldsOf(s: string, t: CivilTime)
    requires |s| == 20 && s[4] == '-' && s[7] == '-' && s[10] == 'T' && s[13] == ':' && s[16] == ':' && s[19] == 'Z'
    requires ParseDigits(s[0..4]) == Some(t.year) && ParseDigits(s[5..7]) == Some(t.month)
    requires ParseDigits(s[8..10]) == Some(t.day) && ParseDigits(s[11..13]) == Some(t.hour)
    requires ParseDigits(s[14..16]) == Some(t.minute) && ParseDigits(s[17..19]) == Some(t.second)
    ensures ParseFields(s) == Some(t)
  {
  }

  lemma GenesisYear()
    ensures ParseDigits(GENESIS_TIME_TEXT[0..4]) == Some(2020)
  {
    var year := GENESIS_TIME_TEXT[0..4];
    assert year == "2020";
    ParseFourDigits(year);
    ParseTwoDigits(year[..2]);
  }

  lemma GenesisDateAndTime()
    ensures ParseDigits(GENESIS_TIME_TEXT[5..7]) == Some(8) && ParseDigits(GENESIS_TIME_TEXT[8..10]) == Some(1)
    ensures ParseDigits(GENESIS_TIME_TEXT[11..13]) == Some(0) && ParseDigits(GENESIS_TIME_TEXT[14..16]) == Some(0)
    ensures ParseDigits(GENESIS_TIME_TEXT[17..19]) == Some(0)
  {
    var s := GENESIS_TIME_TEXT;
    ParseTwoDigits(s[5..7]);
    ParseTwoDigits(s[8..10]);
    ParseTwoDigits(s[11..13]);
    ParseTwoDigits(s[14..16]);
    ParseTwoDigits(s[17..19]);
  }

  lemma GenesisFields()
    ensures ParseFields(GENESIS_TIME_TEXT) == Some(CivilTime(2020, 8, 1, 0, 0, 0))
  {
    var s := GENESIS_TIME_TEXT;
    assert s[4] == '-' && s[7] == '-' && s[10] == 'T' && s[13] == ':' && s[16] == ':' && s[19] == 'Z';
    GenesisYear();
    GenesisDateAndTime();
    FieldsOf(s, CivilTime(2020, 8, 1, 0, 0, 0));
  }

  /** 2020-08-01 is day 18,475 after the epoch. */
  lemma GenesisDayNumber()
    ensures DaysFromCivil(2020, 8, 1) == 18475
  {
    DaysToMarchOfEra(2020, 5, 20);
  }

  /** An instant whose fields parse and are in range reads as its seconds
      since the epoch. */
  lemma ParseOfFields(s: string, t: CivilTime)
    requires ParseFields(s) == Some(t) && ValidCivilTime(t)
    ensures ParseRfc3339Utc(s) == Some(EpochSeconds(t))
  {
  }

  lemma GenesisTimeParses()
    ensures ParseRfc3339Utc(GENESIS_TIME_TEXT) == Some(1_596_240_000)
  {
    var t := CivilTime(2020, 8, 1, 0, 0, 0);
    GenesisFields();
    GenesisDayNumber();
    assert ValidCivilTime(t);
    ParseOfFields(GENESIS_TIME_TEXT, t);
  }

  /** `genesis_block`: height 0, zero parent hash and state root, no
      transactions, nonce 0, the configured initial difficulty, and the
      timestamp 2020-08-01T00:00:00Z. */
  function GenesisBlock(initDiff: U64): (b: Block)
    ensures b.header.height == 0 && b.header.prevBlkHash == ZERO_HASH && b.header.stateRoot == ZERO_HASH
    ensures b.header.txList == [] && b.nonce == 0 && b.diff == initDiff
    ensures b.header.timeStamp == 1_596_240_000 * NANOS_PER_SEC
  {
    GenesisTimeParses();
    var t := ParseRfc3339Utc(GENESIS_TIME_TEXT);
    Block(BlockHeader(0, ZERO_HASH, t.value * NANOS_PER_SEC, [], ZERO_HASH), initDiff, 0)
  }
}
