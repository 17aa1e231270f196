/** The division arithmetic behind the rate-adjusted clock: how much TPM time a
    lag earns at a given rate, and how much of the lag that earning consumes. */
module ClockArithmetic {

  const CLOCK_NOMINAL: nat := 30000
  const CLOCK_ADJUST_LIMIT: nat := 5000
  const RATE_LOW: nat := CLOCK_NOMINAL - CLOCK_ADJUST_LIMIT
  const RATE_HIGH: nat := CLOCK_NOMINAL + CLOCK_ADJUST_LIMIT

  predicate RateInRange(rate: nat) {
    RATE_LOW <= rate <= RATE_HIGH
  }

  /** TPM milliseconds earned by `lag` milliseconds of reported time. */
  function Earned(rate: nat, lag: nat): nat
    requires rate > 0
  {
    lag * CLOCK_NOMINAL / rate
  }

  /** Reported milliseconds that earning `earned` TPM milliseconds consumes. */
  function Consumed(rate: nat, earned: nat): nat {
    earned * rate / CLOCK_NOMINAL
  }

  /** What is left of a lag after one read has earned and consumed. */
  function Residue(rate: nat, lag: nat): int
    requires rate > 0
  {
    lag - Consumed(rate, Earned(rate, lag))
  }

  function CeilDiv(x: nat, d: nat): nat
    requires d > 0
  {
    (x + d - 1) / d
  }

  lemma Euclid(x: nat, d: nat)
    requires d > 0
    ensures x == (x / d) * d + x % d && x % d < d
  {
  }

  lemma Distributes(a: int, b: int, d: int)
    ensures (a + b) * d == a * d + b * d
  {
  }

  lemma MulGap(a: int, b: int, d: nat)
    ensures a < b ==> a * d + d <= b * d
  {
    if a < b {
      Distributes(a + 1, b - a - 1, d);
      Distributes(a, 1, d);
      Product(b - a - 1, d);
    }
  }

  lemma Product(x: nat, y: nat)
    ensures 0 <= x * y
  {
  }

  /** A quotient is pinned down by the interval that its multiple falls in. */
  lemma QuotientUnique(x: nat, d: nat, q: int)
    requires d > 0 && q * d <= x < q * d + d
    ensures x / d == q
  {
    Euclid(x, d);
    MulGap(x / d, q, d);
    MulGap(q, x / d, d);
  }

  /** The nested truncating divisions lose exactly the remainder of the first
      one, rounded up to whole milliseconds. */
  lemma ResidueIsCeiling(rate: nat, lag: nat)
    requires rate > 0
    ensures Residue(rate, lag) == CeilDiv(lag * CLOCK_NOMINAL % rate, CLOCK_NOMINAL)
  {
    var m := lag * CLOCK_NOMINAL % rate;
    var q := Earned(rate, lag);
    Euclid(lag * CLOCK_NOMINAL, rate);
    assert q * rate == lag * CLOCK_NOMINAL - m;
    var c := CeilDiv(m, CLOCK_NOMINAL);
    Euclid(m + CLOCK_NOMINAL - 1, CLOCK_NOMINAL);
    QuotientUnique(q * rate, CLOCK_NOMINAL, lag - c);
  }

  /** In range, no more lag is consumed than there was, and what stays behind is
      at most two milliseconds, one when the clock runs at or above nominal speed. */
  lemma ResidueBounds(rate: nat, lag: nat)
    requires RateInRange(rate)
    ensures 0 <= Residue(rate, lag) <= 2
    ensures rate <= CLOCK_NOMINAL ==> Residue(rate, lag) <= 1
    ensures rate == CLOCK_NOMINAL ==> Residue(rate, lag) == 0 && Earned(rate, lag) == lag
  {
    ResidueIsCeiling(rate, lag);
    if rate == CLOCK_NOMINAL {
      QuotientUnique(lag * CLOCK_NOMINAL, rate, lag);
    }
  }

  /** The exchange rate between consumed and earned time, for any rate in range. */
  lemma ExchangeBounds(rate: nat, earned: nat)
    requires RateInRange(rate)
    ensures 6 * Consumed(rate, earned) <= 7 * earned
    ensures 5 * earned <= 6 * Consumed(rate, earned) + 5
    ensures rate >= CLOCK_NOMINAL ==> earned <= Consumed(rate, earned)
    ensures rate <= CLOCK_NOMINAL ==> Consumed(rate, earned) <= earned
  {
    MulOrder(earned, RATE_LOW, rate);
    MulOrder(earned, rate, RATE_HIGH);
    MulOrder(earned, CLOCK_NOMINAL, rate);
    MulOrder(earned, rate, CLOCK_NOMINAL);
    TruncatedExchange(earned * rate, earned);
  }

  lemma MulOrder(x: nat, a: nat, b: nat)
    ensures a <= b ==> x * a <= x * b
  {
    if a <= b {
      Product(b - a, x);
      Distributes(a, b - a, x);
    }
  }

  lemma TruncatedExchange(scaled: nat, earned: nat)
    requires earned * RATE_LOW <= scaled <= earned * RATE_HIGH
    ensures 6 * (scaled / CLOCK_NOMINAL) <= 7 * earned
    ensures 5 * earned <= 6 * (scaled / CLOCK_NOMINAL) + 5
    ensures earned * CLOCK_NOMINAL <= scaled ==> earned <= scaled / CLOCK_NOMINAL
    ensures scaled <= earned * CLOCK_NOMINAL ==> scaled / CLOCK_NOMINAL <= earned
  {
  }

  /** What the one or two milliseconds a read can leave behind earn and consume
      when they are read again. */
  lemma SmallLags(rate: nat)
    requires RateInRange(rate)
    ensures rate > CLOCK_NOMINAL ==> Earned(rate, 1) == 0 && Consumed(rate, 0) == 0
    ensures rate > CLOCK_NOMINAL ==> Earned(rate, 2) == 1 && Consumed(rate, 1) == 1
    ensures rate < CLOCK_NOMINAL ==> Earned(rate, 1) == 1 && Consumed(rate, 1) == 0
    ensures rate < CLOCK_NOMINAL ==> Earned(rate, 2) == 2 && Consumed(rate, 2) == 1
  {
    if rate > CLOCK_NOMINAL {
      QuotientUnique(CLOCK_NOMINAL, rate, 0);
      QuotientUnique(2 * CLOCK_NOMINAL, rate, 1);
      QuotientUnique(rate, CLOCK_NOMINAL, 1);
    } else if rate < CLOCK_NOMINAL {
      QuotientUnique(CLOCK_NOMINAL, rate, 1);
      QuotientUnique(rate, CLOCK_NOMINAL, 0);
      QuotientUnique(2 * CLOCK_NOMINAL, rate, 2);
      QuotientUnique(2 * rate, CLOCK_NOMINAL, 1);
    }
  }
}

/** The clock state and its operations: the values they compute, and the
    methods over mutable fields in the machine's 128-bit arithmetic. */
module Clock {
  import opened ClockArithmetic
  import opened Wrappers

  datatype Clock = Clock(
    adjustRate: nat,
    timerReset: bool,
    timerStopped: bool,
    lastSystem: nat,
    lastReported: nat,
    lastReal: nat,
    tpmTime: nat)

  const POWER_ON := Clock(CLOCK_NOMINAL, true, true, 0, 0, 0, 0)

  const U64_LIMIT: nat := 0x1_0000_0000_0000_0000
  const U128_LIMIT: nat := 0x1_0000_0000_0000_0000_0000_0000_0000_0000

  /** A `Duration` holds a 64-bit number of seconds, so its milliseconds stay below this. */
  const DURATION_MS_LIMIT: nat := 1000 * U64_LIMIT

  type Millis = n: nat | n < DURATION_MS_LIMIT

  // ---------------------------------------------------------------- reading

  /** The reading whose subtraction from the system time goes below zero. */
  predicate Wraps(c: Clock, now: nat) {
    c.lastSystem != 0 && c.lastReported <= now && c.lastReported + now < c.lastSystem
  }

  /** Fold a raw reading into the reported time. The first nonzero reading is the origin. */
  function Rebase(c: Clock, now: nat): Clock
    requires !Wraps(c, now)
  {
    if c.lastSystem == 0 then c.(lastSystem := now, lastReported := 0, lastReal := 0)
    else if now < c.lastReported then c.(lastSystem := now)
    else c.(lastSystem := now, lastReported := c.lastReported + now - c.lastSystem)
  }

  /** Turn the reported time that is not yet accounted for into TPM time. */
  function Account(c: Clock): Clock
    requires c.adjustRate > 0
  {
    if c.lastReal >= c.lastReported then c
    else
      var earned := Earned(c.adjustRate, c.lastReported - c.lastReal);
      c.(tpmTime := c.tpmTime + earned,
         lastReal := c.lastReal + Consumed(c.adjustRate, earned))
  }

  /** One read, in unbounded integers. */
  function Read(c: Clock, now: nat): Clock
    requires c.adjustRate > 0 && !Wraps(c, now)
  {
    Account(Rebase(c, now))
  }

  // ---------------------------------------------------------------- rate

  function TickDelta(adjustment: int): int {
    match adjustment
    case -3 => 300
    case -2 => 30
    case -1 => 1
    case 1 => -1
    case 2 => -30
    case 3 => -300
    case _ => 0
  }

  function AdjustedRate(rate: nat, adjustment: int): nat {
    var ticks := rate + TickDelta(adjustment);
    if ticks < RATE_LOW then RATE_LOW else if ticks > RATE_HIGH then RATE_HIGH else ticks
  }

  // ---------------------------------------------------------------- invariant

  /** What every operation keeps for arbitrary readings, monotone or not. The
      last two bounds keep all intermediate results within 128 bits. */
  predicate Sound(c: Clock) {
    && RateInRange(c.adjustRate)
    && 6 * c.lastReal <= 7 * c.tpmTime
    && c.lastReported <= c.lastReal + 2
    && c.lastSystem < DURATION_MS_LIMIT
    && c.tpmTime < U64_LIMIT
  }

  /** Reading keeps the invariant up to the width of the returned time, leaves at
      most two milliseconds unaccounted for, and never takes TPM time back. */
  lemma ReadKeepsSound(c: Clock, now: nat)
    requires Sound(c) && !Wraps(c, now) && now < DURATION_MS_LIMIT
    ensures var after := Read(c, now);
            && after.tpmTime >= c.tpmTime
            && (after.tpmTime < U64_LIMIT ==> Sound(after))
  {
    var based := Rebase(c, now);
    if based.lastReal < based.lastReported {
      var lag := based.lastReported - based.lastReal;
      ResidueBounds(c.adjustRate, lag);
      ExchangeBounds(c.adjustRate, Earned(c.adjustRate, lag));
    }
  }

  // ---------------------------------------------------------------- machine arithmetic

  /** `+` on u128: with overflow checks an overflow aborts, without them it wraps. */
  function AddU128(x: nat, y: nat, overflowChecks: bool): Option<nat> {
    if x + y >= U128_LIMIT && overflowChecks then None else Some((x + y) % U128_LIMIT)
  }

  /** `*` on u128, in either build. */
  function MulU128(x: nat, y: nat, overflowChecks: bool): Option<nat> {
    if x * y >= U128_LIMIT && overflowChecks then None else Some(x * y % U128_LIMIT)
  }

  /** `wrapping_sub` on u128, in every build. */
  function WrappingSubU128(x: nat, y: nat): nat {
    (x - y) % U128_LIMIT
  }

  /** Conversion of the TPM time to the returned u64; the caller's `expect` aborts on `None`. */
  function ToU64(x: nat): Option<nat> {
    if x < U64_LIMIT then Some(x) else None
  }

  /** The sum before the subtraction fits, and its difference is either the
      reported time or just below the top of the range. */
  lemma RebaseFits(c: Clock, now: nat, overflowChecks: bool)
    requires Sound(c) && now < DURATION_MS_LIMIT
    ensures var origin := if c.lastSystem == 0 then now else c.lastSystem;
            var reported := if c.lastSystem == 0 then 0 else c.lastReported;
            var previous := if now < reported then now else origin;
            && AddU128(reported, now, overflowChecks) == Some(reported + now)
            && WrappingSubU128(reported + now, previous)
               == (if Wraps(c, now) then U128_LIMIT + reported + now - previous else Rebase(c, now).lastReported)
  {
  }

  /** An ordinary lag is accounted for without overflow. */
  lemma OrdinaryLag(rate: nat, lag: nat, tpm: nat, consumed: nat, overflowChecks: bool)
    requires RateInRange(rate) && lag < 2000 * U64_LIMIT
    requires tpm < U64_LIMIT && consumed < 2 * U64_LIMIT
    ensures MulU128(lag, CLOCK_NOMINAL, overflowChecks) == Some(lag * CLOCK_NOMINAL)
    ensures var earned := Earned(rate, lag);
            && AddU128(tpm, earned, overflowChecks) == Some(tpm + earned)
            && MulU128(earned, rate, overflowChecks) == Some(earned * rate)
            && AddU128(consumed, Consumed(rate, earned), overflowChecks)
               == Some(consumed + Consumed(rate, earned))
  {
    var scaled, earned := lag * CLOCK_NOMINAL, Earned(rate, lag);
    Euclid(scaled, rate);
    MulOrder(earned, RATE_LOW, rate);
    NarrowOperands(scaled, tpm, earned, consumed, earned * rate);
  }

  lemma NarrowOperands(scaled: nat, tpm: nat, earned: nat, consumed: nat, rescaled: nat)
    requires scaled < 60_000_000 * U64_LIMIT && earned * RATE_LOW <= rescaled <= scaled
    requires tpm < U64_LIMIT && consumed < 2 * U64_LIMIT
    ensures scaled % U128_LIMIT == scaled < U128_LIMIT
    ensures rescaled % U128_LIMIT == rescaled < U128_LIMIT
    ensures (tpm + earned) % U128_LIMIT == tpm + earned < U128_LIMIT
    ensures (consumed + rescaled / CLOCK_NOMINAL) % U128_LIMIT == consumed + rescaled / CLOCK_NOMINAL < U128_LIMIT
  {
  }

  /** A lag that wrapped below zero earns more than 64 bits of time, unless the
      overflow of its scaling aborts first. */
  lemma WrappedLag(rate: nat, lag: nat, tpm: nat, consumed: nat)
    requires RateInRange(rate) && U128_LIMIT - 2000 * U64_LIMIT <= lag < U128_LIMIT
    requires tpm < U64_LIMIT && consumed < 2 * U64_LIMIT
    ensures MulU128(lag, CLOCK_NOMINAL, true) == None
    ensures var scaled := MulU128(lag, CLOCK_NOMINAL, false);
            && scaled.Some?
            && var earned := scaled.value / rate;
            && AddU128(tpm, earned, false) == Some(tpm + earned)
            && tpm + earned >= U64_LIMIT
            && MulU128(earned, rate, false) == Some(earned * rate)
            && AddU128(consumed, earned * rate / CLOCK_NOMINAL, false).Some?
  {
    var scaled := U128_LIMIT - (U128_LIMIT - lag) * CLOCK_NOMINAL;
    QuotientUnique(lag * CLOCK_NOMINAL, U128_LIMIT, CLOCK_NOMINAL - 1);
    assert MulU128(lag, CLOCK_NOMINAL, false) == Some(scaled);
    var earned := scaled / rate;
    Euclid(scaled, rate);
    MulOrder(earned, rate, RATE_HIGH);
    MulOrder(earned, RATE_LOW, rate);
    WideOperands(tpm, earned, earned * rate);
  }

  lemma WideOperands(tpm: nat, earned: nat, scaled: nat)
    requires earned * RATE_LOW <= scaled < U128_LIMIT
    requires tpm < U64_LIMIT
    ensures (tpm + earned) % U128_LIMIT == tpm + earned
    ensures scaled % U128_LIMIT == scaled
  {
  }

  /** The mutable clock. A read that aborts the process returns `None`. */
  class ClockState {
    var adjustRate: nat
    var timerReset: bool
    var timerStopped: bool
    var lastSystem: nat
    var lastReported: nat
    var lastReal: nat
    var tpmTime: nat

    function Value(): Clock
      reads this
    {
      Clock(adjustRate, timerReset, timerStopped, lastSystem, lastReported, lastReal, tpmTime)
    }

    constructor ()
      ensures Value() == POWER_ON && Sound(Value())
    {
      adjustRate, timerReset, timerStopped := CLOCK_NOMINAL, true, true;
      lastSystem, lastReported, lastReal, tpmTime := 0, 0, 0, 0;
    }

    /** Aborts exactly when the subtraction wraps or the TPM time outgrows 64
        bits, whether or not the build checks overflow; otherwise the 128-bit
        computation agrees with unbounded integers. */
    method TimerRead(reading: nat, overflowChecks: bool) returns (r: Option<nat>)
      requires Sound(Value()) && reading < DURATION_MS_LIMIT
      modifies this
      ensures r.None? <==> Wraps(old(Value()), reading)
                           || Read(old(Value()), reading).tpmTime >= U64_LIMIT
      ensures r.Some? ==> && Value() == Read(old(Value()), reading)
                          && Sound(Value())
                          && r.value == tpmTime >= old(tpmTime)
    {
      ghost var start := Value();
      if lastSystem == 0 {
        lastSystem := reading;
        lastReported := 0;
        lastReal := 0;
      }
      if reading < lastReported {
        lastSystem := reading;
      }
      RebaseFits(start, reading, overflowChecks);
      var sum := AddU128(lastReported, reading, overflowChecks);
      if sum.None? {
        return None;
      }
      lastReported := WrappingSubU128(sum.value, lastSystem);
      lastSystem := reading;
      ghost var wrapped := Wraps(start, reading);
      if !wrapped {
        assert Value() == Rebase(start, reading);
        ReadKeepsSound(start, reading);
      }
      r := AccountTime(overflowChecks, wrapped);
    }

    /** The second half of a read: rate adjustment of the time not yet accounted for. */
    method AccountTime(overflowChecks: bool, ghost wrapped: bool) returns (r: Option<nat>)
      requires RateInRange(adjustRate) && tpmTime < U64_LIMIT && lastReal < 2 * U64_LIMIT
      requires !wrapped ==> lastReported < 2000 * U64_LIMIT
      requires wrapped ==> U128_LIMIT - 1998 * U64_LIMIT <= lastReported < U128_LIMIT
      modifies this`tpmTime, this`lastReal
      ensures wrapped ==> r.None?
      ensures !wrapped ==> Value() == Account(old(Value())) && r == ToU64(tpmTime)
    {
      if lastReal >= lastReported {
        return ToU64(tpmTime);
      }
      var timeDiff := lastReported - lastReal;
      if wrapped {
        WrappedLag(adjustRate, timeDiff, tpmTime, lastReal);
      } else {
        OrdinaryLag(adjustRate, timeDiff, tpmTime, lastReal, overflowChecks);
      }
      var scaled := MulU128(timeDiff, CLOCK_NOMINAL, overflowChecks);
      if scaled.None? {
        return None;
      }
      var adjustedTimeDiff := scaled.value / adjustRate;
      var total := AddU128(tpmTime, adjustedTimeDiff, overflowChecks);
      if total.None? {
        return None;
      }
      tpmTime := total.value;
      var rescaled := MulU128(adjustedTimeDiff, adjustRate, overflowChecks);
      if rescaled.None? {
        return None;
      }
      var readjustedTimeDiff := rescaled.value / CLOCK_NOMINAL;
      var consumed := AddU128(lastReal, readjustedTimeDiff, overflowChecks);
      if consumed.None? {
        return None;
      }
      lastReal := consumed.value;
      return ToU64(tpmTime);
    }

    method TimerReset()
      modifies this
      ensures Value() == POWER_ON && Sound(Value())
    {
      adjustRate, timerReset, timerStopped := CLOCK_NOMINAL, true, true;
      lastSystem, lastReported, lastReal, tpmTime := 0, 0, 0, 0;
    }

    method TimerWasReset() returns (was: bool)
      modifies this`timerReset
      ensures was == old(timerReset) && !timerReset
    {
      was := timerReset;
      timerReset := false;
    }

    method TimerWasStopped() returns (was: bool)
      modifies this`timerStopped
      ensures was == old(timerStopped) && !timerStopped
    {
      was := timerStopped;
      timerStopped := false;
    }

    method ClockRateAdjust(adjustment: int)
      requires Sound(Value())
      modifies this`adjustRate
      ensures Sound(Value()) && adjustRate == AdjustedRate(old(adjustRate), adjustment)
    {
      var tickDelta := 0;
      match adjustment {
        case -3 => tickDelta := 300;
        case -2 => tickDelta := 30;
        case -1 => tickDelta := 1;
        case 1 => tickDelta := -1;
        case 2 => tickDelta := -30;
        case 3 => tickDelta := -300;
        case _ =>
      }
      adjustRate := adjustRate + tickDelta;
      if adjustRate < RATE_LOW {
        adjustRate := RATE_LOW;
      } else if adjustRate > RATE_HIGH {
        adjustRate := RATE_HIGH;
      }
    }
  }
}
