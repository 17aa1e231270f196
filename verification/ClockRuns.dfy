/** Whole runs of the clock: reads mixed with rate adjustments. */
module ClockRuns {
  import opened ClockArithmetic
  import opened Clock
  import opened Wrappers

  datatype Event = Reading(now: nat) | RateAdjust(adjustment: int)

  /** One event; `None` when the read aborts the process. */
  function Step(c: Clock, e: Event): Option<Clock>
    requires c.adjustRate > 0
  {
    match e
    case Reading(now) =>
      if Wraps(c, now) || Read(c, now).tpmTime >= U64_LIMIT then None else Some(Read(c, now))
    case RateAdjust(adjustment) =>
      Some(c.(adjustRate := AdjustedRate(c.adjustRate, adjustment)))
  }

  /** The timer's flags play no part in its time. */
  lemma FlagsDoNotMatter(c: Clock, e: Event)
    requires c.adjustRate > 0
    ensures var unread := c.(timerReset := true, timerStopped := true);
            Step(unread, e) == match Step(c, e)
                               case None => None
                               case Some(next) => Some(next.(timerReset := true, timerStopped := true))
  {
    if e.Reading? && !Wraps(c, e.now) {
      var based := Rebase(c, e.now);
      assert Rebase(c.(timerReset := true, timerStopped := true), e.now)
          == based.(timerReset := true, timerStopped := true);
      FlagsDoNotAccount(based);
    }
  }

  lemma FlagsDoNotAccount(c: Clock)
    requires c.adjustRate > 0
    ensures Account(c.(timerReset := true, timerStopped := true))
         == Account(c).(timerReset := true, timerStopped := true)
  {
  }

  function Run(c: Clock, events: seq<Event>): (r: Option<Clock>)
    requires c.adjustRate > 0
    ensures r.Some? ==> r.value.adjustRate > 0
    decreases |events|
  {
    if events == [] then Some(c)
    else
      var next := Step(c, events[0]);
      if next.None? then None else Run(next.value, events[1..])
  }

  /** Readings are what a `Duration` can hold. */
  predicate InRange(events: seq<Event>) {
    forall e | e in events :: e.Reading? ==> e.now < DURATION_MS_LIMIT
  }

  /** The callback contract: readings never decrease. */
  predicate Monotone(last: nat, events: seq<Event>)
    decreases |events|
  {
    events != [] ==>
      match events[0]
      case Reading(now) => last <= now < DURATION_MS_LIMIT && Monotone(now, events[1..])
      case RateAdjust(_) => Monotone(last, events[1..])
  }

  function LastReading(last: nat, events: seq<Event>): nat
    decreases |events|
  {
    if events == [] then last
    else LastReading(if events[0].Reading? then events[0].now else last, events[1..])
  }

  function FirstNonzero(first: nat, events: seq<Event>): nat
    decreases |events|
  {
    if events == [] then first
    else FirstNonzero(if first == 0 && events[0].Reading? then events[0].now else first, events[1..])
  }

  /** Reads that get past the early return and account for some time. */
  function ActiveReads(c: Clock, events: seq<Event>): nat
    requires c.adjustRate > 0
    decreases |events|
  {
    if events == [] then 0
    else
      var next := Step(c, events[0]);
      if next.None? then 0
      else (if Accounts(c, events[0]) then 1 else 0) + ActiveReads(next.value, events[1..])
  }

  predicate Accounts(c: Clock, e: Event) {
    e.Reading? && !Wraps(c, e.now) && var based := Rebase(c, e.now); based.lastReal < based.lastReported
  }

  // ---------------------------------------------------------------- arbitrary readings

  /** Over every run, monotone or not, the invariant holds and TPM time never decreases. */
  lemma {:induction false} TimeNeverDecreases(c: Clock, events: seq<Event>)
    requires Sound(c) && InRange(events) && Run(c, events).Some?
    ensures Sound(Run(c, events).value)
    ensures Run(c, events).value.tpmTime >= c.tpmTime
    decreases |events|
  {
    if events != [] {
      var e := events[0];
      if e.Reading? {
        assert e in events;
        ReadKeepsSound(c, e.now);
      }
      TimeNeverDecreases(Step(c, e).value, events[1..]);
    }
  }

  /** The reported time, unlike the TPM time, can go backwards, in exactly two
      ways: a reading of zero makes the next read start over, and a backward jump
      is absorbed only when it falls below the reported time, since the guard looks
      at that and not at the previous reading. */
  lemma ReportedGoesBackwards(c: Clock, now: nat)
    requires Sound(c) && !Wraps(c, now)
    ensures Rebase(c, now).lastReported < c.lastReported
            <==> if c.lastSystem == 0 then c.lastReported > 0
                 else c.lastReported <= now < c.lastSystem
  {
  }

  /** The clock at nominal rate after reading `first` and then `second`. */
  function AfterTwo(first: nat, second: nat): Clock
    requires first <= second
  {
    POWER_ON.(lastSystem := second, lastReported := second - first,
              lastReal := second - first, tpmTime := second - first)
  }

  /** Both ways are reached from power-on. After two readings, a third between
      the elapsed time and the second takes the reported time back; and so does
      any reading after a reading of zero. */
  lemma ReportedGoesBackwardsInRuns(first: nat, second: nat, third: nat)
    requires 0 < first < second < U64_LIMIT && first <= third
    ensures Run(POWER_ON, [Reading(first), Reading(second)]) == Some(AfterTwo(first, second))
    ensures Run(POWER_ON, [Reading(first), Reading(second), Reading(0)])
         == Some(AfterTwo(first, second).(lastSystem := 0))
    ensures second - first <= third < second ==>
              Rebase(AfterTwo(first, second), third).lastReported == third - first < second - first
    ensures Rebase(AfterTwo(first, second).(lastSystem := 0), third).lastReported == 0 < second - first
  {
    var c1, c2 := POWER_ON.(lastSystem := first), AfterTwo(first, second);
    ResidueBounds(CLOCK_NOMINAL, second - first);
    assert Step(POWER_ON, Reading(first)) == Some(c1);
    assert Step(c1, Reading(second)) == Some(c2);
    assert Step(c2, Reading(0)) == Some(c2.(lastSystem := 0));
    RunAfter(c2, Reading(0), []);
    assert [Reading(0)] + [] == [Reading(0)];
    RunAfter(c1, Reading(second), []);
    RunAfter(c1, Reading(second), [Reading(0)]);
    assert [Reading(second)] + [] == [Reading(second)];
    assert [Reading(second)] + [Reading(0)] == [Reading(second), Reading(0)];
    RunAfter(POWER_ON, Reading(first), [Reading(second)]);
    RunAfter(POWER_ON, Reading(first), [Reading(second), Reading(0)]);
    assert [Reading(first)] + [Reading(second)] == [Reading(first), Reading(second)];
    assert [Reading(first)] + [Reading(second), Reading(0)] == [Reading(first), Reading(second), Reading(0)];
  }

  /** For instance, 25 after 10 and 30, and 25 after 5, 25 and 0. */
  lemma ReportedGoesBackwardsAtTwentyFive()
    ensures var jumped := AfterTwo(10, 30);
            && Run(POWER_ON, [Reading(10), Reading(30)]) == Some(jumped)
            && !Wraps(jumped, 25) && jumped.lastReported == 20 && Rebase(jumped, 25).lastReported == 15
    ensures var restarted := AfterTwo(5, 25).(lastSystem := 0);
            && Run(POWER_ON, [Reading(5), Reading(25), Reading(0)]) == Some(restarted)
            && !Wraps(restarted, 25) && restarted.lastReported == 20 && Rebase(restarted, 25).lastReported == 0
  {
    ReportedGoesBackwardsInRuns(10, 30, 25);
    ReportedGoesBackwardsInRuns(5, 25, 25);
  }

  lemma RunAfter(c: Clock, e: Event, events: seq<Event>)
    requires c.adjustRate > 0
    ensures Run(c, [e] + events) == if Step(c, e).None? then None else Run(Step(c, e).value, events)
  {
    assert ([e] + events)[1..] == events;
  }

  // ---------------------------------------------------------------- monotone readings

  /** The state under the callback contract, relative to the first nonzero
      reading and the last reading since power-on. */
  predicate Anchored(c: Clock, first: nat, last: nat) {
    && Sound(c)
    && c.lastSystem == last
    && first <= last
    && (first == 0 ==> last == 0)
    && c.lastReal <= c.lastReported == last - first
    && (last == 0 ==> c.tpmTime == 0)
  }

  /** Closed form of a single monotone read: the backwards guard does not fire,
      nothing wraps, and only the width of the result can abort it. */
  lemma AnchoredRead(c: Clock, first: nat, last: nat, now: nat)
    requires Anchored(c, first, last) && last <= now < DURATION_MS_LIMIT
    ensures !Wraps(c, now) && (c.lastSystem != 0 ==> c.lastReported <= now)
    ensures var origin := if first == 0 then now else first;
            var lag := now - origin - c.lastReal;
            var earned := if lag > 0 then Earned(c.adjustRate, lag) else 0;
            && Read(c, now) == c.(lastSystem := now, lastReported := now - origin,
                                  tpmTime := c.tpmTime + earned,
                                  lastReal := c.lastReal + Consumed(c.adjustRate, earned))
            && (Accounts(c, Reading(now)) <==> lag > 0)
            && (Read(c, now).tpmTime < U64_LIMIT ==> Anchored(Read(c, now), origin, now))
  {
    ReadKeepsSound(c, now);
    var based := Rebase(c, now);
    if based.lastReal < based.lastReported {
      ResidueBounds(c.adjustRate, based.lastReported - based.lastReal);
    }
  }

  /** After any monotone run, a reading that breaks the contract (a timer that
      restarted on another host, say) wraps the subtraction, and so aborts, exactly
      when it lies at or above the elapsed time but before the original first reading. */
  lemma RestartedTimerAborts(c: Clock, first: nat, last: nat, now: nat)
    requires Anchored(c, first, last)
    ensures Wraps(c, now) <==> last - first <= now < first
    ensures Wraps(Read(POWER_ON, 10), 5)
  {
    assert Read(POWER_ON, 10) == POWER_ON.(lastSystem := 10);
  }

  /** Under the callback contract the reported time is always the last reading
      less the first nonzero one. */
  lemma {:induction false} ReportedClosedForm(c: Clock, first: nat, last: nat, events: seq<Event>)
    requires Anchored(c, first, last) && Monotone(last, events) && Run(c, events).Some?
    ensures Anchored(Run(c, events).value, FirstNonzero(first, events), LastReading(last, events))
    decreases |events|
  {
    if events != [] {
      var e := events[0];
      if e.Reading? {
        AnchoredRead(c, first, last, e.now);
        ReportedClosedForm(Read(c, e.now), if first == 0 then e.now else first, e.now, events[1..]);
      } else {
        ReportedClosedForm(Step(c, e).value, first, last, events[1..]);
      }
    }
  }

  /** TPM time gained over a run, against the time consumed and the number of
      reads that accounted for any. */
  lemma {:induction false} DriftOverRun(c: Clock, first: nat, last: nat, events: seq<Event>)
    requires Anchored(c, first, last) && Monotone(last, events) && Run(c, events).Some?
    ensures var end := Run(c, events).value;
            && 6 * (end.lastReal - c.lastReal) <= 7 * (end.tpmTime - c.tpmTime)
            && 5 * (end.tpmTime - c.tpmTime)
               <= 6 * (end.lastReal - c.lastReal) + 5 * ActiveReads(c, events)
    decreases |events|
  {
    if events != [] {
      var e := events[0];
      if e.Reading? {
        AnchoredRead(c, first, last, e.now);
        var next := Read(c, e.now);
        ExchangeBounds(c.adjustRate, next.tpmTime - c.tpmTime);
        DriftOverRun(next, if first == 0 then e.now else first, e.now, events[1..]);
      } else {
        DriftOverRun(Step(c, e).value, first, last, events[1..]);
      }
    }
  }

  /** The two-sided drift bound, from power-on: TPM time stays within a sixth
      below and a fifth above the elapsed time, up to a millisecond per read. */
  lemma DriftBound(events: seq<Event>)
    requires Monotone(0, events) && Run(POWER_ON, events).Some?
    ensures var end := Run(POWER_ON, events).value;
            var elapsed := LastReading(0, events) - FirstNonzero(0, events);
            && RateInRange(end.adjustRate)
            && end.lastReported == elapsed
            && end.lastReal <= elapsed <= end.lastReal + 2
            && 6 * end.lastReal <= 7 * end.tpmTime
            && 6 * elapsed <= 7 * end.tpmTime + 12
            && 5 * end.tpmTime <= 6 * elapsed + 5 * ActiveReads(POWER_ON, events)
  {
    ReportedClosedForm(POWER_ON, 0, 0, events);
    DriftOverRun(POWER_ON, 0, 0, events);
  }

  /** Under the callback contract a read aborts only for want of 64 bits, which
      takes this much elapsed time or this many reads. */
  lemma NoAbort(events: seq<Event>, now: nat)
    requires Monotone(0, events) && Run(POWER_ON, events).Some?
    requires LastReading(0, events) <= now < DURATION_MS_LIMIT
    requires var origin := if FirstNonzero(0, events) == 0 then now else FirstNonzero(0, events);
             6 * (now - origin) + 5 * (ActiveReads(POWER_ON, events) + 1) < 5 * U64_LIMIT
    ensures Step(Run(POWER_ON, events).value, Reading(now)).Some?
  {
    var c := Run(POWER_ON, events).value;
    var first, last := FirstNonzero(0, events), LastReading(0, events);
    ReportedClosedForm(POWER_ON, 0, 0, events);
    DriftOverRun(POWER_ON, 0, 0, events);
    AnchoredRead(c, first, last, now);
    var next := Read(c, now);
    var earned := next.tpmTime - c.tpmTime;
    ExchangeBounds(c.adjustRate, earned);
    if c.lastReal < next.lastReported {
      ResidueBounds(c.adjustRate, next.lastReported - c.lastReal);
    }
  }

  /** All reads of a sequence of events. */
  function Reads(events: seq<Event>): nat
    decreases |events|
  {
    if events == [] then 0 else (if events[0].Reading? then 1 else 0) + Reads(events[1..])
  }

  /** Time only grows: the elapsed time so far is within that of the whole run. */
  lemma {:induction false} ElapsedGrows(first: nat, last: nat, events: seq<Event>)
    requires Monotone(last, events) && first <= last && (first == 0 ==> last == 0)
    ensures last - first <= LastReading(last, events) - FirstNonzero(first, events)
    decreases |events|
  {
    if events != [] {
      var e := events[0];
      if e.Reading? {
        ElapsedGrows(if first == 0 then e.now else first, e.now, events[1..]);
      } else {
        ElapsedGrows(first, last, events[1..]);
      }
    }
  }

  /** A run of monotone readings with any adjustments never aborts, as long as
      its elapsed time and its number of reads leave room in 64 bits. */
  lemma NoAbortOverRun(events: seq<Event>)
    requires Monotone(0, events)
    requires 6 * (LastReading(0, events) - FirstNonzero(0, events)) + 5 * Reads(events) < 5 * U64_LIMIT
    ensures Run(POWER_ON, events).Some?
  {
    NoAbortFrom(POWER_ON, 0, 0, 0, events);
  }

  lemma {:induction false} NoAbortFrom(c: Clock, first: nat, last: nat, k: nat, events: seq<Event>)
    requires Anchored(c, first, last) && Monotone(last, events)
    requires 5 * c.tpmTime <= 6 * c.lastReal + 5 * k
    requires 6 * (LastReading(last, events) - FirstNonzero(first, events)) + 5 * (k + Reads(events)) < 5 * U64_LIMIT
    ensures Run(c, events).Some?
    decreases |events|
  {
    if events != [] {
      var e := events[0];
      if e.Reading? {
        var origin := if first == 0 then e.now else first;
        AnchoredRead(c, first, last, e.now);
        var next := Read(c, e.now);
        ExchangeBounds(c.adjustRate, next.tpmTime - c.tpmTime);
        if c.lastReal < next.lastReported {
          ResidueBounds(c.adjustRate, next.lastReported - c.lastReal);
        }
        ElapsedGrows(origin, e.now, events[1..]);
        NoAbortFrom(next, origin, e.now, k + 1, events[1..]);
      } else {
        NoAbortFrom(Step(c, e).value, first, last, k, events[1..]);
      }
    }
  }

  // ---------------------------------------------------------------- exact accounting

  predicate ReadingsOnly(events: seq<Event>) {
    forall e | e in events :: e.Reading?
  }

  /** Ticks' worth of time earned in excess of the nominal ticks consumed. */
  function Balance(rate: nat, earned: int, consumed: int): int {
    rate * earned - CLOCK_NOMINAL * consumed
  }

  /** The remainders that the second division of each accounting read drops. */
  function DroppedRemainders(c: Clock, events: seq<Event>): nat
    requires c.adjustRate > 0
    decreases |events|
  {
    if events == [] then 0
    else
      var next := Step(c, events[0]);
      if next.None? then 0
      else
        var earned := next.value.tpmTime - c.tpmTime;
        earned * c.adjustRate % CLOCK_NOMINAL + DroppedRemainders(next.value, events[1..])
  }

  /** What a read leaves unaccounted for: exactly the rounded-up remainder of its
      first division, so never less than nothing, and at most one millisecond at
      or above nominal speed and two below. */
  lemma LeftoverOfRead(c: Clock, now: nat)
    requires Sound(c) && !Wraps(c, now)
    ensures var based, after := Rebase(c, now), Read(c, now);
            if Accounts(c, Reading(now)) then
              var dropped := (based.lastReported - based.lastReal) * CLOCK_NOMINAL % c.adjustRate;
              && after.lastReported - after.lastReal == CeilDiv(dropped, CLOCK_NOMINAL)
              && 0 <= after.lastReported - after.lastReal <= (if c.adjustRate <= CLOCK_NOMINAL then 1 else 2)
            else after == based && after.lastReported <= after.lastReal
  {
    var based := Rebase(c, now);
    if based.lastReal < based.lastReported {
      ResidueIsCeiling(c.adjustRate, based.lastReported - based.lastReal);
      ResidueBounds(c.adjustRate, based.lastReported - based.lastReal);
    }
  }

  /** At a fixed rate, time earned and time consumed differ over a whole run by
      exactly the remainders dropped on the way. */
  lemma {:induction false} ExactAccounting(c: Clock, first: nat, last: nat, events: seq<Event>)
    requires Anchored(c, first, last) && Monotone(last, events) && ReadingsOnly(events)
    requires Run(c, events).Some?
    ensures var end := Run(c, events).value;
            Balance(c.adjustRate, end.tpmTime - c.tpmTime, end.lastReal - c.lastReal)
            == DroppedRemainders(c, events)
    decreases |events|
  {
    if events != [] {
      var e := events[0];
      assert e in events;
      AnchoredRead(c, first, last, e.now);
      var next, end := Read(c, e.now), Run(c, events).value;
      var earned := next.tpmTime - c.tpmTime;
      assert ReadingsOnly(events[1..]);
      ExactAccounting(next, if first == 0 then e.now else first, e.now, events[1..]);
      BalanceOfRead(c.adjustRate, earned);
      assert next.lastReal - c.lastReal == Consumed(c.adjustRate, earned);
      BalanceAdds(c.adjustRate, earned, end.tpmTime - next.tpmTime,
                  Consumed(c.adjustRate, earned), end.lastReal - next.lastReal);
    }
  }

  lemma BalanceOfRead(rate: nat, earned: nat)
    ensures Balance(rate, earned, Consumed(rate, earned)) == earned * rate % CLOCK_NOMINAL
  {
    Euclid(earned * rate, CLOCK_NOMINAL);
  }

  lemma BalanceAdds(rate: nat, earned0: int, earned1: int, consumed0: int, consumed1: int)
    ensures Balance(rate, earned0 + earned1, consumed0 + consumed1)
         == Balance(rate, earned0, consumed0) + Balance(rate, earned1, consumed1)
  {
  }

  /** With no rate change the clock is perfect: TPM time is the elapsed time. */
  lemma {:induction false} NominalClockIsExact(c: Clock, first: nat, last: nat, events: seq<Event>)
    requires Anchored(c, first, last) && Monotone(last, events) && ReadingsOnly(events)
    requires c.adjustRate == CLOCK_NOMINAL && c.tpmTime == c.lastReal == c.lastReported
    requires Run(c, events).Some?
    ensures Run(c, events).value.tpmTime == LastReading(last, events) - FirstNonzero(first, events)
    decreases |events|
  {
    if events != [] {
      var e := events[0];
      assert e in events;
      AnchoredRead(c, first, last, e.now);
      var next := Read(c, e.now);
      ResidueBounds(c.adjustRate, next.lastReported - c.lastReal);
      assert ReadingsOnly(events[1..]);
      NominalClockIsExact(next, if first == 0 then e.now else first, e.now, events[1..]);
    }
  }

  // ---------------------------------------------------------------- one-sided speed

  predicate RatesWithin(low: nat, rate: nat, high: nat, events: seq<Event>)
    decreases |events|
  {
    && low <= rate <= high
    && (events != [] ==>
          RatesWithin(low, if events[0].Reading? then rate else AdjustedRate(rate, events[0].adjustment),
                      high, events[1..]))
  }

  /** A clock never set faster than nominal never runs ahead, however often it is
      read; one never set slower than nominal never falls more than 1 ms behind. */
  lemma {:induction false} OneSidedSpeed(c: Clock, first: nat, last: nat, low: nat, high: nat, events: seq<Event>)
    requires Anchored(c, first, last) && Monotone(last, events) && Run(c, events).Some?
    requires RatesWithin(low, c.adjustRate, high, events)
    ensures var end := Run(c, events).value;
            && (low >= CLOCK_NOMINAL && c.tpmTime <= c.lastReal ==> end.tpmTime <= end.lastReported)
            && (high <= CLOCK_NOMINAL && c.lastReal <= c.tpmTime && c.lastReported <= c.lastReal + 1
                ==> end.tpmTime >= end.lastReported - 1)
    decreases |events|
  {
    if events != [] {
      var e := events[0];
      if e.Reading? {
        AnchoredRead(c, first, last, e.now);
        var next := Read(c, e.now);
        ExchangeBounds(c.adjustRate, next.tpmTime - c.tpmTime);
        if c.lastReal < next.lastReported {
          ResidueBounds(c.adjustRate, next.lastReported - c.lastReal);
        }
        OneSidedSpeed(next, if first == 0 then e.now else first, e.now, low, high, events[1..]);
      } else {
        OneSidedSpeed(Step(c, e).value, first, last, low, high, events[1..]);
      }
    }
  }

  // ---------------------------------------------------------------- adjusting the rate

  /** A positive adjustment makes every lag earn at least as much, a negative one
      at most as much; opposite adjustments cancel exactly when the first was not
      cut off at the limit; an unknown code changes nothing. */
  lemma AdjustmentSteers(rate: nat, adjustment: int, lag: nat)
    requires RateInRange(rate)
    ensures var adjusted := AdjustedRate(rate, adjustment);
            && RateInRange(adjusted)
            && (adjustment > 0 ==> Earned(adjusted, lag) >= Earned(rate, lag))
            && (adjustment < 0 ==> Earned(adjusted, lag) <= Earned(rate, lag))
            && (adjusted == rate <== adjustment == 0 || adjustment < -3 || adjustment > 3)
            && (AdjustedRate(adjusted, -adjustment) == rate
                <==> RATE_LOW <= rate + TickDelta(adjustment) <= RATE_HIGH)
  {
    var adjusted := AdjustedRate(rate, adjustment);
    EarnedAntitone(adjusted, rate, lag);
    EarnedAntitone(rate, adjusted, lag);
  }

  /** A stronger adjustment steers at least as far. */
  lemma AdjustmentsAreOrdered(rate: nat, a: int, b: int)
    requires RateInRange(rate) && -3 <= a < b <= 3
    ensures AdjustedRate(rate, b) <= AdjustedRate(rate, a)
    ensures RATE_LOW + 600 <= rate <= RATE_HIGH - 600 ==> AdjustedRate(rate, b) < AdjustedRate(rate, a)
  {
  }

  function Repeated(adjustment: int, n: nat): seq<Event> {
    if n == 0 then [] else [RateAdjust(adjustment)] + Repeated(adjustment, n - 1)
  }

  function Clamped(rate: int): nat {
    if rate < 25000 then 25000 else if rate > 35000 then 35000 else rate
  }

  /** What each adjustment does to the rate: coarse, medium and fine slower add
      300, 30 and 1 ticks, and the faster ones take as many off. */
  const STEPS: set<(int, int)> := {(-3, 300), (-2, 30), (-1, 1), (1, -1), (2, -30), (3, -300)}

  /** Any number of equal adjustments move the rate by as many steps, as far as
      the limits, and change nothing else. */
  lemma {:induction false} AdjustedRepeatedly(c: Clock, adjustment: int, step: int, n: nat)
    requires 25000 <= c.adjustRate <= 35000 && (adjustment, step) in STEPS
    ensures Run(c, Repeated(adjustment, n)) == Some(c.(adjustRate := Clamped(c.adjustRate + n * step)))
    decreases n
  {
    if n > 0 {
      var next := c.(adjustRate := Clamped(c.adjustRate + step));
      assert Step(c, RateAdjust(adjustment)) == Some(next);
      assert Repeated(adjustment, n)[1..] == Repeated(adjustment, n - 1);
      AdjustedRepeatedly(next, adjustment, step, n - 1);
      ClampedTwice(c.adjustRate, step, n - 1);
    }
  }

  lemma ClampedTwice(rate: nat, step: int, n: nat)
    requires 25000 <= rate <= 35000
    ensures Clamped(Clamped(rate + step) + n * step) == Clamped(rate + (n + 1) * step)
  {
    Distributes(n, 1, step);
    if step >= 0 {
      Product(n, step);
    } else {
      Product(n, -step);
      assert n * step == -(n * -step);
    }
  }

  /** Thirty fine adjustments are one medium one, and ten medium ones one coarse
      one, in both directions, the limits included. */
  lemma AdjustmentSizes(c: Clock, faster: bool)
    requires 25000 <= c.adjustRate <= 35000
    ensures var sign := if faster then 1 else -1;
            && Run(c, Repeated(sign, 30)) == Run(c, [RateAdjust(2 * sign)])
            && Run(c, Repeated(2 * sign, 10)) == Run(c, [RateAdjust(3 * sign)])
  {
    if faster {
      ManyAreOne(c, 1, -1, 30, 2, -30);
      ManyAreOne(c, 2, -30, 10, 3, -300);
    } else {
      ManyAreOne(c, -1, 1, 30, -2, 30);
      ManyAreOne(c, -2, 30, 10, -3, 300);
    }
  }

  lemma ManyAreOne(c: Clock, small: int, smallStep: int, n: nat, large: int, largeStep: int)
    requires 25000 <= c.adjustRate <= 35000
    requires (small, smallStep) in STEPS && (large, largeStep) in STEPS && n * smallStep == largeStep
    ensures Run(c, Repeated(small, n)) == Run(c, [RateAdjust(large)])
  {
    AdjustedRepeatedly(c, small, smallStep, n);
    AdjustedRepeatedly(c, large, largeStep, 1);
    assert Repeated(large, 1) == [RateAdjust(large)] + Repeated(large, 0) == [RateAdjust(large)];
  }

  /** From power-on: a first reading, some equal adjustments, and a second reading
      give the time between the readings at 30000 ticks a millisecond, divided by
      the rate they led to. */
  lemma TimeAtAdjustedRate(first: nat, adjustment: int, step: int, n: nat, second: nat)
    requires 0 < first <= second < 0x8000_0000_0000_0000 && (adjustment, step) in STEPS
    ensures var rate := Clamped(30000 + n * step);
            var end := Run(POWER_ON, [Reading(first)] + (Repeated(adjustment, n) + [Reading(second)]));
            end.Some? && end.value.tpmTime == (second - first) * 30000 / rate
  {
    var adjusted := Repeated(adjustment, n);
    var c1 := POWER_ON.(lastSystem := first);
    assert Step(POWER_ON, Reading(first)) == Some(c1);
    RunAfter(POWER_ON, Reading(first), adjusted + [Reading(second)]);
    AdjustedRepeatedly(c1, adjustment, step, n);
    RunOfConcat(c1, adjusted, [Reading(second)]);
    var c2 := Run(c1, adjusted).value;
    var lag := second - first;
    ExchangeBounds(c2.adjustRate, Earned(c2.adjustRate, lag));
    ResidueBounds(c2.adjustRate, lag);
    assert Read(c2, second).tpmTime == if lag > 0 then Earned(c2.adjustRate, lag) else 0;
    assert [Reading(second)] + [] == [Reading(second)];
    RunAfter(c2, Reading(second), []);
  }

  lemma {:induction false} RunOfConcat(c: Clock, a: seq<Event>, b: seq<Event>)
    requires c.adjustRate > 0
    ensures Run(c, a + b) == if Run(c, a).Some? then Run(Run(c, a).value, b) else None
    decreases |a|
  {
    if a == [] {
      assert a + b == b;
    } else {
      assert (a + b)[0] == a[0] && (a + b)[1..] == a[1..] + b;
      if Step(c, a[0]).Some? {
        RunOfConcat(Step(c, a[0]).value, a[1..], b);
      }
    }
  }

  /** A backward jump that falls below the reported time is absorbed: the
      reported time stands, and goes on from the new reading. */
  lemma AbsorbedJump(c: Clock, now: nat, later: nat)
    requires Sound(c) && c.lastSystem != 0 && 0 < now < c.lastReported <= later < DURATION_MS_LIMIT
    ensures !Wraps(c, now) && Read(c, now).lastReported == c.lastReported && Read(c, now).lastSystem == now
    ensures !Wraps(Read(c, now), later) && Read(Read(c, now), later).lastReported == c.lastReported + (later - now)
  {
  }

  lemma EarnedAntitone(fast: nat, slow: nat, lag: nat)
    requires fast > 0 && slow > 0
    ensures fast <= slow ==> Earned(fast, lag) >= Earned(slow, lag)
  {
    var x, q := lag * CLOCK_NOMINAL, Earned(slow, lag);
    if fast <= slow {
      Euclid(x, slow);
      Euclid(x, fast);
      MulOrder(q, fast, slow);
      MulGap(x / fast, q, fast);
    }
  }

  // ---------------------------------------------------------------- reading a frozen timer

  /** The clock after `n` reads of the same instant. */
  function ReadRepeatedly(c: Clock, now: nat, n: nat): Clock
    requires c.adjustRate > 0 && c.lastSystem == now
    decreases n
  {
    if n == 0 then c else ReadRepeatedly(Read(c, now), now, n - 1)
  }

  /** Reading an instant `n` more times, whatever was left over when it was last
      read and at whatever rate since: set fast, the clock adds a millisecond at
      every read while anything is left over, and one more for a leftover of two;
      at nominal speed it adds the leftover once; set slow, it adds one
      millisecond once, and only for a leftover of two. */
  lemma {:induction false} FrozenTimer(c: Clock, now: nat, n: nat)
    requires RateInRange(c.adjustRate) && now > 0 && c.lastSystem == now
    requires c.lastReported <= c.lastReal + 2
    ensures ReadRepeatedly(c, now, n).tpmTime - c.tpmTime
         == FrozenGain(c.adjustRate, c.lastReported - c.lastReal, n)
    decreases n
  {
    if n > 0 {
      var left := c.lastReported - c.lastReal;
      SmallLags(c.adjustRate);
      ResidueBounds(c.adjustRate, 1);
      ResidueBounds(c.adjustRate, 2);
      FrozenTimer(Read(c, now), now, n - 1);
    }
  }

  function FrozenGain(rate: nat, left: int, n: nat): int {
    if left <= 0 || n == 0 then 0
    else if rate < CLOCK_NOMINAL then if left == 1 then n else n + 1
    else if rate == CLOCK_NOMINAL then left
    else if left == 1 then 0 else 1
  }

  /** Rereading an instant changes nothing, for ever, exactly when the first read
      of it dropped no remainder or, at or below nominal speed, at most one
      millisecond's worth of nominal ticks. */
  lemma RereadIsIdempotent(c: Clock, now: nat, n: nat)
    requires Sound(c) && now > 0 && !Wraps(c, now) && n > 0
    requires Accounts(c, Reading(now))
    ensures var based := Rebase(c, now);
            var dropped := (based.lastReported - based.lastReal) * CLOCK_NOMINAL % c.adjustRate;
            var first := Read(c, now);
            ReadRepeatedly(first, now, n).tpmTime == first.tpmTime
            <==> dropped == 0 || (c.adjustRate >= CLOCK_NOMINAL && dropped <= CLOCK_NOMINAL)
  {
    var based := Rebase(c, now);
    var lag := based.lastReported - based.lastReal;
    ResidueIsCeiling(c.adjustRate, lag);
    ResidueBounds(c.adjustRate, lag);
    FrozenTimer(Read(c, now), now, n);
  }
}
