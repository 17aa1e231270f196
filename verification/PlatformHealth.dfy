/** What stays in order over runs with restores of arbitrary snapshots, and what
    such a snapshot can break. */
module PlatformHealth {
  import opened Bytes
  import opened ClockArithmetic
  import opened Clock
  import opened RuntimeState
  import opened Platform
  import opened PlatformTheorems
  import opened Wrappers
  import ClockRuns
  import Entropy
  import NvMemory

  // ---------------------------------------------------------------- the size of NV memory

  predicate RightLength(nv: NvMemory.Nv) {
    |nv.region| == NvMemory.NV_MEMORY_SIZE
  }

  /** The NV region and the committed image are as long as the library expects. */
  predicate Sized(w: World) {
    && (w.platform.Some? ==> RightLength(w.platform.value.nvmem))
    && (w.store.Some? ==> |w.store.value| == NvMemory.NV_MEMORY_SIZE)
  }

  predicate SizedSnapshot(call: Call) {
    call.RestoreState? ==> RightLength(call.snapshot.platform.nvmem)
  }

  lemma {:induction false} CallBacksKeepSize(w: World, callbacks: seq<Callback>, n: nat)
    requires w.platform.Some? && n <= |callbacks| && Sized(w)
    ensures Sized(CallBackUpTo(w, callbacks, n))
    decreases n
  {
    if n > 0 {
      CallBacksKeepSize(w, callbacks, n - 1);
    }
  }

  lemma ForeignKeepsSize(entry: Entry)
    requires entry.world.platform.Some? && Sized(entry.world)
    ensures Sized(Left(entry))
  {
    CallBacksKeepSize(entry.world, entry.foreign.callbacks, |entry.foreign.callbacks|);
  }

  /** Every call keeps the sizes, but for a restore: nothing looks at the size of
      the NV region that it brings, so it keeps them exactly if that is right. */
  lemma SizesKept(w: World, call: Call)
    requires Inv(w) && Legal(w, call) && Sized(w)
    ensures Sized(Perform(w, call).0) <==> SizedSnapshot(call)
  {
    var entries := ForeignCalls(w, call);
    if entries != [] {
      ForeignKeepsSize(entries[0]);
      if |entries| > 1 {
        ForeignKeepsSize(entries[1]);
      }
    }
  }

  lemma {:induction false} SizesKeptOverRun(w: World, calls: seq<Call>)
    requires Inv(w) && Sized(w) && Run(w, calls).Some?
    requires forall k :: 0 <= k < |calls| ==> SizedSnapshot(calls[k])
    ensures Sized(Run(w, calls).value)
    decreases |calls|
  {
    if calls != [] {
      PerformKeepsInv(w, calls[0]);
      SizesKept(w, calls[0]);
      SizesKeptOverRun(Perform(w, calls[0]).0, calls[1..]);
    }
  }

  /** Durability where every restored snapshot has a region of the right size, as all
      saved ones do: the last committed image is accepted again. */
  lemma DurabilityOfSized(w: World, calls: seq<Call>, c: nat, f: nat, i: nat, again: Call)
    requires Inv(w) && Sized(w) && Run(w, calls).Some? && LastCommitOfRun(w, calls, c, f, i)
    requires forall k :: 0 <= k < |calls| ==> SizedSnapshot(calls[k])
    requires var end := Run(w, calls).value;
             && end.platform.None? && Legal(end, again)
             && again.Initialize? && again.kind == PersistentState(end.store.GetOr([]))
    ensures var (up, r) := Perform(Run(w, calls).value, again);
            && r == Ok(())
            && up.platform.Some?
            && up.platform.value.nvmem
               == Served(NvMemory.Nv(ImageAtCommit(w, calls, c, f, i), true), again.tpmInit)
  {
    SizesKeptOverRun(w, calls);
    StoreIsLastCommit(w, calls, c, f, i);
    Durability(w, calls, c, f, i, again);
  }

  /** Without that, durability fails. A snapshot with a region of another size is
      restored, with the same answer as if the size were right; a plain reset keeps
      the region, and a library that commits stores it; but after a drop
      nothing can be initialized from the store. */
  lemma ForeignSizeIsLost(w: World, snapshot: Snapshot, backend: Backend, library: Library, again: Call)
    requires Inv(w) && w.handles > 0 && SameBuild(library, w.library.vars)
    requires !RightLength(snapshot.platform.nvmem)
    requires again.Initialize? && again.kind == PersistentState(snapshot.platform.nvmem.region)
    requires SameBuild(again.manufacture.library, w.library.vars) && SameBuild(again.tpmInit.library, w.library.vars)
    ensures var region := snapshot.platform.nvmem.region;
            var sized := snapshot.(platform := snapshot.platform.(nvmem := NewState().nvmem));
            var calls := [RestoreState(snapshot, backend), Reset(None, Foreign([NvCommit(true)], library)), Drop];
            && Perform(w, RestoreState(snapshot, backend)).1 == Perform(w, RestoreState(sized, backend)).1
            && Run(w, calls).Some?
            && LastCommitOfRun(w, calls, 1, 0, 0)
            && var end := Run(w, calls).value;
            && end.platform.None? && end.store == Some(region)
            && Legal(end, again)
            && Perform(end, again)
               == (end, Err(NvMem(NvMemory.MismatchedBlobSize(NvMemory.NV_MEMORY_SIZE, |region|))))
  {
    var restore, reset := RestoreState(snapshot, backend), Reset(None, Foreign([NvCommit(true)], library));
    var calls := [restore, reset, Drop];
    assert calls[1..] == [reset, Drop] && [reset, Drop][1..] == [Drop] && [Drop][1..] == [];
    PerformKeepsInv(w, restore);
    var w1 := Perform(w, restore).0;
    PerformKeepsInv(w1, reset);
    var w2 := Perform(w1, reset).0;
    PerformKeepsInv(w2, Drop);
    var end := Perform(w2, Drop).0;
    var powered, callbacks := PoweredAgain(w1, None), [NvCommit(true)];
    assert CallBackUpTo(powered, callbacks, 1) == CallBack(CallBackUpTo(powered, callbacks, 0), callbacks[0]);
    assert Run(end, []) == Some(end);
    assert Run(w2, [Drop]) == Some(end);
    assert Run(w1, [reset, Drop]) == Some(end);
    assert Run(w, calls) == Some(end);
    assert ForeignCalls(w1, reset) == [Entry(powered, Foreign(callbacks, library))];
    assert RunCommitsNothing(end, []);
    assert RunCommitsNothing(w2, [Drop]);
    assert LastCommitAt(w1, reset, 0, 0);
    assert LastCommitOfRun(w1, [reset, Drop], 0, 0, 0);
  }

  // ---------------------------------------------------------------- the clock

  /** The precondition of the timer's methods. */
  predicate Ticking(w: World) {
    w.platform.Some? ==> Sound(w.platform.value.clock)
  }

  predicate SoundSnapshot(call: Call) {
    call.RestoreState? ==> Sound(call.snapshot.platform.clock)
  }

  lemma {:induction false} CallBacksKeepTicking(w: World, callbacks: seq<Callback>, n: nat)
    requires w.platform.Some? && n <= |callbacks| && Ticking(w)
    ensures Ticking(CallBackUpTo(w, callbacks, n))
    decreases n
  {
    if n > 0 {
      CallBacksKeepTicking(w, callbacks, n - 1);
      var before := CallBackUpTo(w, callbacks, n - 1).platform.value.clock;
      if callbacks[n - 1].TimerRead? && !Wraps(before, callbacks[n - 1].now) {
        ReadKeepsSound(before, callbacks[n - 1].now);
      }
    }
  }

  lemma ForeignKeepsTicking(entry: Entry)
    requires entry.world.platform.Some? && Ticking(entry.world)
    ensures Ticking(Left(entry))
  {
    CallBacksKeepTicking(entry.world, entry.foreign.callbacks, |entry.foreign.callbacks|);
  }

  /** The foreign calls of a call start from a sound clock if the call does. */
  lemma {:induction false} EntryTicks(w: World, call: Call, f: nat)
    requires Inv(w) && Legal(w, call) && Ticking(w) && f < |ForeignCalls(w, call)|
    ensures Ticking(ForeignCalls(w, call)[f].world) && Ticking(Left(ForeignCalls(w, call)[f]))
    decreases f
  {
    var entries := ForeignCalls(w, call);
    if f > 0 {
      assert |entries| == 2 && entries[1].world == Left(entries[0]);
      EntryTicks(w, call, f - 1);
    }
    ForeignKeepsTicking(entries[f]);
  }

  /** Every call keeps the clock sound, a restore exactly if its snapshot's is. */
  lemma TickingKept(w: World, call: Call)
    requires Inv(w) && Legal(w, call) && Ticking(w)
    ensures Ticking(Perform(w, call).0) <==> SoundSnapshot(call)
  {
    var entries := ForeignCalls(w, call);
    if entries != [] {
      EntryTicks(w, call, |entries| - 1);
    }
  }

  /** Over every run that restores sound clocks only, as all saved ones are, the
      clock is sound between calls and at every callback: the timer is never read or
      adjusted outside of what its arithmetic is proved for. */
  lemma {:induction false} TickingOverRun(w: World, calls: seq<Call>, c: nat, f: nat, i: nat)
    requires Inv(w) && Ticking(w) && Run(w, calls).Some?
    requires forall k :: 0 <= k < |calls| ==> SoundSnapshot(calls[k])
    ensures Ticking(Run(w, calls).value)
    ensures c < |calls| && IsCallback(w, calls, c, f, i) ==> Ticking(AtCallback(w, calls, c, f, i))
    decreases |calls|
  {
    if calls != [] {
      var next := Perform(w, calls[0]).0;
      PerformKeepsInv(w, calls[0]);
      TickingKept(w, calls[0]);
      TickingOverRun(next, calls[1..], if c == 0 then 0 else c - 1, f, i);
      if c == 0 && IsCallback(w, calls, c, f, i) {
        EntryTicks(w, calls[0], f);
        var entry := ForeignCalls(w, calls[0])[f];
        CallBacksKeepTicking(entry.world, entry.foreign.callbacks, i);
      }
    }
  }

  /** Whether callback `i` of foreign call `f` of call `c` is made in a run. */
  predicate IsCallback(w: World, calls: seq<Call>, c: nat, f: nat, i: nat)
    requires Inv(w) && Run(w, calls).Some? && c < |calls|
    decreases |calls|
  {
    PerformKeepsInv(w, calls[0]);
    if c == 0 then f < |ForeignCalls(w, calls[0])| && i < |ForeignCalls(w, calls[0])[f].foreign.callbacks|
    else IsCallback(Perform(w, calls[0]).0, calls[1..], c - 1, f, i)
  }

  /** The world that the callback finds. */
  function AtCallback(w: World, calls: seq<Call>, c: nat, f: nat, i: nat): (r: World)
    requires Inv(w) && Run(w, calls).Some? && c < |calls| && IsCallback(w, calls, c, f, i)
    ensures r.platform.Some?
    decreases |calls|
  {
    PerformKeepsInv(w, calls[0]);
    if c == 0 then
      var entry := ForeignCalls(w, calls[0])[f];
      CallBackUpTo(entry.world, entry.foreign.callbacks, i)
    else AtCallback(Perform(w, calls[0]).0, calls[1..], c - 1, f, i)
  }

  // ---------------------------------------------------------------- a power cycle

  /** The callbacks that a run of commands makes. */
  function Made(calls: seq<Call>): seq<Callback>
    decreases |calls|
  {
    if calls == [] then []
    else
      (if calls[0].ExecuteCommand? && RequestLength(calls[0].request).Some? then calls[0].command.callbacks else [])
      + Made(calls[1..])
  }

  /** The callbacks of an initialization or a reset, all of them after its power-on. */
  function SincePowerOn(call: Call): seq<Callback>
    requires call.Initialize? || call.Reset?
  {
    match call
    case Reset(_, tpmInit) => tpmInit.callbacks
    case Initialize(kind, manufacture, _, tpmInit) =>
      (if kind.PersistentState? then [] else manufacture.callbacks) + tpmInit.callbacks
  }

  lemma {:induction false} FlagsOverCallbacks(w: World, callbacks: seq<Callback>, n: nat)
    requires w.platform.Some? && n <= |callbacks| && Ticking(w)
    ensures var was, now := w.platform.value, CallBackUpTo(w, callbacks, n).platform.value;
            && now.clock.timerReset == (was.clock.timerReset && TimerWasReset !in callbacks[..n])
            && now.clock.timerStopped == (was.clock.timerStopped && TimerWasStopped !in callbacks[..n])
            && now.powerLost == (was.powerLost && WasPowerLost !in callbacks[..n])
    decreases n
  {
    if n > 0 {
      FlagsOverCallbacks(w, callbacks, n - 1);
      CallBacksKeepTicking(w, callbacks, n - 1);
      FlagsAfter(CallBackUpTo(w, callbacks, n - 1).platform.value, callbacks[n - 1]);
      assert callbacks[..n] == callbacks[..n - 1] + [callbacks[n - 1]];
    }
  }

  lemma FlagsAfter(p: PlatformState, callback: Callback)
    requires Sound(p.clock)
    ensures var now := OnState(p, callback);
            && now.clock.timerReset == (p.clock.timerReset && callback != TimerWasReset)
            && now.clock.timerStopped == (p.clock.timerStopped && callback != TimerWasStopped)
            && now.powerLost == (p.powerLost && callback != WasPowerLost)
  {
  }

  lemma {:induction false} FlagsOverRun(w: World, calls: seq<Call>)
    requires Inv(w) && w.handles > 0 && Ticking(w) && Run(w, calls).Some?
    requires forall k :: 0 <= k < |calls| ==> KeepsImage(calls[k])
    ensures var end := Run(w, calls).value;
            && end.handles > 0 && end.platform.Some? && Ticking(end)
            && var was, now := w.platform.value, end.platform.value;
            && now.clock.timerReset == (was.clock.timerReset && TimerWasReset !in Made(calls))
            && now.clock.timerStopped == (was.clock.timerStopped && TimerWasStopped !in Made(calls))
            && now.powerLost == (was.powerLost && WasPowerLost !in Made(calls))
    decreases |calls|
  {
    if calls != [] {
      var call, next := calls[0], Perform(w, calls[0]).0;
      PerformKeepsInv(w, call);
      EventsOfCall(w, call);
      TickingKept(w, call);
      if call.ExecuteCommand? && RequestLength(call.request).Some? {
        FlagsOverCallbacks(w, call.command.callbacks, |call.command.callbacks|);
        assert call.command.callbacks[..|call.command.callbacks|] == call.command.callbacks;
      }
      FlagsOverRun(next, calls[1..]);
    }
  }

  /** An initialization or a reset raises the flags, and each stays up until the
      library asks for it: the first such callback since then reports true, in
      whatever command it comes, and every later one false. */
  lemma ReportedOnce(w: World, call: Call, calls: seq<Call>, command: Foreign, i: nat)
    requires Inv(w) && (call.Initialize? || call.Reset?) && Legal(w, call) && Perform(w, call).1 == Ok(())
    requires Run(w, [call] + calls).Some? && i <= |command.callbacks|
    requires forall k :: 0 <= k < |calls| ==> KeepsImage(calls[k])
    ensures var end := Run(w, [call] + calls).value;
            var earlier := SincePowerOn(call) + Made(calls) + command.callbacks[..i];
            && end.handles > 0 && end.platform.Some?
            && var p := CallBackUpTo(end, command.callbacks, i).platform.value;
            && (p.clock.timerReset <==> TimerWasReset !in earlier)
            && (p.clock.timerStopped <==> TimerWasStopped !in earlier)
            && (p.powerLost <==> WasPowerLost !in earlier)
  {
    assert ([call] + calls)[1..] == calls;
    PerformKeepsInv(w, call);
    var on := Perform(w, call).0;
    FlagsAfterPowerOn(w, call);
    FlagsOverRun(on, calls);
    FlagsOverCallbacks(Run(on, calls).value, command.callbacks, i);
  }

  lemma FlagsAfterPowerOn(w: World, call: Call)
    requires Inv(w) && (call.Initialize? || call.Reset?) && Legal(w, call) && Perform(w, call).1 == Ok(())
    ensures var on := Perform(w, call).0;
            && on.handles > 0 && on.platform.Some? && Ticking(on)
            && var p := on.platform.value;
            && (p.clock.timerReset <==> TimerWasReset !in SincePowerOn(call))
            && (p.clock.timerStopped <==> TimerWasStopped !in SincePowerOn(call))
            && (p.powerLost <==> WasPowerLost !in SincePowerOn(call))
  {
    var entries := ForeignCalls(w, call);
    var first := entries[0];
    assert first.world.platform.value.clock == POWER_ON && first.world.platform.value.powerLost;
    EntryFlags(first);
    if |entries| > 1 {
      assert |entries| == 2 && entries[1].world == Left(first);
      EntryFlags(entries[1]);
    }
  }

  lemma EntryFlags(entry: Entry)
    requires entry.world.platform.Some? && Ticking(entry.world)
    ensures Ticking(Left(entry))
    ensures var was, now, callbacks := entry.world.platform.value, Left(entry).platform.value, entry.foreign.callbacks;
            && now.clock.timerReset == (was.clock.timerReset && TimerWasReset !in callbacks)
            && now.clock.timerStopped == (was.clock.timerStopped && TimerWasStopped !in callbacks)
            && now.powerLost == (was.powerLost && WasPowerLost !in callbacks)
  {
    var callbacks := entry.foreign.callbacks;
    ForeignKeepsTicking(entry);
    FlagsOverCallbacks(entry.world, callbacks, |callbacks|);
    assert callbacks[..|callbacks|] == callbacks;
  }

  /** What callbacks do to the clock. */
  function TimerEvents(callbacks: seq<Callback>): seq<ClockRuns.Event>
    decreases |callbacks|
  {
    if callbacks == [] then []
    else
      match callbacks[0]
      case TimerRead(now, _) => [ClockRuns.Reading(now)] + TimerEvents(callbacks[1..])
      case ClockRateAdjust(adjustment, _) => [ClockRuns.RateAdjust(adjustment)] + TimerEvents(callbacks[1..])
      case _ => TimerEvents(callbacks[1..])
  }

  lemma {:induction false} TimerEventsOfConcat(a: seq<Callback>, b: seq<Callback>)
    ensures TimerEvents(a + b) == TimerEvents(a) + TimerEvents(b)
    decreases |a|
  {
    if a == [] {
      assert a + b == b;
    } else {
      assert (a + b)[0] == a[0] && (a + b)[1..] == a[1..] + b;
      TimerEventsOfConcat(a[1..], b);
    }
  }

  /** A clock but for the flags that callbacks read and clear. */
  function Unread(c: Clock): Clock {
    c.(timerReset := true, timerStopped := true)
  }

  lemma {:induction false} ClockOverCallbacks(w: World, callbacks: seq<Callback>, n: nat)
    requires w.platform.Some? && n <= |callbacks| && Ticking(w)
    requires ClockRuns.Run(Unread(w.platform.value.clock), TimerEvents(callbacks[..n])).Some?
    ensures ClockRuns.Run(Unread(w.platform.value.clock), TimerEvents(callbacks[..n]))
         == Some(Unread(CallBackUpTo(w, callbacks, n).platform.value.clock))
    decreases n
  {
    if n > 0 {
      var before, callback := callbacks[..n - 1], callbacks[n - 1];
      assert callbacks[..n] == before + [callback];
      TimerEventsOfConcat(before, [callback]);
      ClockRuns.RunOfConcat(Unread(w.platform.value.clock), TimerEvents(before), TimerEvents([callback]));
      ClockOverCallbacks(w, callbacks, n - 1);
      CallBacksKeepTicking(w, callbacks, n - 1);
      ClockAfter(CallBackUpTo(w, callbacks, n - 1).platform.value, callback);
    }
  }

  lemma ClockAfter(p: PlatformState, callback: Callback)
    requires Sound(p.clock) && ClockRuns.Run(Unread(p.clock), TimerEvents([callback])).Some?
    ensures ClockRuns.Run(Unread(p.clock), TimerEvents([callback])) == Some(Unread(OnState(p, callback).clock))
  {
    assert [callback][1..] == [] && TimerEvents([]) == [];
    if callback.TimerRead? {
      assert TimerEvents([callback]) == [ClockRuns.Reading(callback.now)];
      ClockTicks(p.clock, ClockRuns.Reading(callback.now), callback.garbled);
    } else if callback.ClockRateAdjust? {
      assert TimerEvents([callback]) == [ClockRuns.RateAdjust(callback.adjustment)];
      ClockTicks(p.clock, ClockRuns.RateAdjust(callback.adjustment), callback.garbled);
    } else {
      assert TimerEvents([callback]) == [];
      ClockUntouched(p, callback);
    }
  }

  lemma ClockUntouched(p: PlatformState, callback: Callback)
    requires !callback.TimerRead? && !callback.ClockRateAdjust?
    ensures Unread(OnState(p, callback).clock) == Unread(p.clock)
  {
  }

  lemma ClockTicks(c: Clock, e: ClockRuns.Event, garbled: Clock)
    requires Sound(c)
    ensures ClockRuns.Run(Unread(c), [e]).Some? ==> ClockRuns.Run(Unread(c), [e]) == Some(Unread(Ticked(c, e, garbled)))
  {
    assert [e] + [] == [e];
    ClockRuns.RunAfter(Unread(c), e, []);
    ClockRuns.FlagsDoNotMatter(c, e);
  }

  lemma {:induction false} ClockOverRun(w: World, calls: seq<Call>)
    requires Inv(w) && w.handles > 0 && Ticking(w) && Run(w, calls).Some?
    requires forall k :: 0 <= k < |calls| ==> KeepsImage(calls[k])
    requires ClockRuns.Run(Unread(w.platform.value.clock), TimerEvents(Made(calls))).Some?
    ensures var end := Run(w, calls).value;
            && end.platform.Some?
            && ClockRuns.Run(Unread(w.platform.value.clock), TimerEvents(Made(calls)))
               == Some(Unread(end.platform.value.clock))
    decreases |calls|
  {
    if calls != [] {
      var call, next, rest := calls[0], Perform(w, calls[0]).0, Made(calls[1..]);
      PerformKeepsInv(w, call);
      EventsOfCall(w, call);
      TickingKept(w, call);
      if call.ExecuteCommand? && RequestLength(call.request).Some? {
        var callbacks := call.command.callbacks;
        assert callbacks[..|callbacks|] == callbacks;
        TimerEventsOfConcat(callbacks, rest);
        ClockRuns.RunOfConcat(Unread(w.platform.value.clock), TimerEvents(callbacks), TimerEvents(rest));
        ClockOverCallbacks(w, callbacks, |callbacks|);
      } else {
        assert Made(calls) == rest;
      }
      ClockOverRun(next, calls[1..]);
    }
  }

  /** The clock after an initialization or a reset and any run of commands is that
      of a run of its own from power-on, over the reads and adjustments made
      since. So its time is bounded by the time elapsed, and no less than that
      allows, however the reads are spread over commands. */
  lemma TimeSincePowerOn(w: World, call: Call, calls: seq<Call>)
    requires Inv(w) && (call.Initialize? || call.Reset?) && Legal(w, call) && Perform(w, call).1 == Ok(())
    requires Run(w, [call] + calls).Some?
    requires forall k :: 0 <= k < |calls| ==> KeepsImage(calls[k])
    requires ClockRuns.Run(POWER_ON, TimerEvents(SincePowerOn(call) + Made(calls))).Some?
    ensures var end, events := Run(w, [call] + calls).value, TimerEvents(SincePowerOn(call) + Made(calls));
            && end.platform.Some?
            && ClockRuns.Run(POWER_ON, events) == Some(Unread(end.platform.value.clock))
            && (ClockRuns.Monotone(0, events) ==>
                  var elapsed := ClockRuns.LastReading(0, events) - ClockRuns.FirstNonzero(0, events);
                  var time := end.platform.value.clock.tpmTime;
                  && 6 * elapsed <= 7 * time + 12
                  && 5 * time <= 6 * elapsed + 5 * ClockRuns.ActiveReads(POWER_ON, events))
  {
    var on := Perform(w, call).0;
    var events := TimerEvents(SincePowerOn(call) + Made(calls));
    assert ([call] + calls)[1..] == calls;
    PerformKeepsInv(w, call);
    FlagsAfterPowerOn(w, call);
    TimerEventsOfConcat(SincePowerOn(call), Made(calls));
    ClockRuns.RunOfConcat(POWER_ON, TimerEvents(SincePowerOn(call)), TimerEvents(Made(calls)));
    ClockAfterPowerOn(w, call);
    ClockOverRun(on, calls);
    if ClockRuns.Monotone(0, events) {
      ClockRuns.DriftBound(events);
    }
  }

  lemma ClockAfterPowerOn(w: World, call: Call)
    requires Inv(w) && (call.Initialize? || call.Reset?) && Legal(w, call) && Perform(w, call).1 == Ok(())
    requires ClockRuns.Run(POWER_ON, TimerEvents(SincePowerOn(call))).Some?
    ensures var on := Perform(w, call).0;
            && on.platform.Some?
            && ClockRuns.Run(POWER_ON, TimerEvents(SincePowerOn(call))) == Some(Unread(on.platform.value.clock))
  {
    var entries := ForeignCalls(w, call);
    var a := entries[0].foreign.callbacks;
    assert a[..|a|] == a && entries[0].world.platform.value.clock == POWER_ON;
    if |entries| > 1 {
      var b := entries[1].foreign.callbacks;
      assert |entries| == 2 && entries[1].world == Left(entries[0]) && SincePowerOn(call) == a + b;
      TimerEventsOfConcat(a, b);
      ClockRuns.RunOfConcat(POWER_ON, TimerEvents(a), TimerEvents(b));
      ClockOverCallbacks(entries[0].world, a, |a|);
      ForeignKeepsTicking(entries[0]);
      assert b[..|b|] == b;
      ClockOverCallbacks(entries[1].world, b, |b|);
    } else {
      assert SincePowerOn(call) == a;
      ClockOverCallbacks(entries[0].world, a, |a|);
    }
  }

  // ---------------------------------------------------------------- the entropy source

  /** What callbacks ask of the entropy source. */
  function DrawsOf(callbacks: seq<Callback>, n: nat): seq<Entropy.Step>
    requires n <= |callbacks|
    decreases n
  {
    if n == 0 then []
    else
      DrawsOf(callbacks, n - 1)
      + match callbacks[n - 1]
        case GetEntropy(amount, answers) => [Entropy.Request(amount, answers)]
        case _ => []
  }

  lemma {:induction false} CallBacksDraw(w: World, callbacks: seq<Callback>, n: nat)
    requires w.platform.Some? && n <= |callbacks|
    ensures CallBackUpTo(w, callbacks, n).platform.value.entropy
         == Entropy.StateAfter(w.platform.value.entropy, DrawsOf(callbacks, n))
    decreases n
  {
    if n > 0 {
      CallBacksDraw(w, callbacks, n - 1);
      var draws := DrawsOf(callbacks, n);
      if callbacks[n - 1].GetEntropy? {
        assert draws[..|draws| - 1] == DrawsOf(callbacks, n - 1);
      } else {
        assert draws == DrawsOf(callbacks, n - 1);
      }
    }
  }

  /** What a call of a live platform does to its entropy source. */
  function StepsOf(call: Call): seq<Entropy.Step> {
    match call
    case Reset(blob, tpmInit) =>
      if IsRefusedReset(call) then [] else DrawsOf(tpmInit.callbacks, |tpmInit.callbacks|)
    case ExecuteCommand(request, command) =>
      if RequestLength(request).None? then [] else DrawsOf(command.callbacks, |command.callbacks|)
    case RestoreState(snapshot, _) => [Entropy.Restored(snapshot.platform.entropy)]
    case _ => []
  }

  function StepsOfRun(calls: seq<Call>): seq<Entropy.Step>
    decreases |calls|
  {
    if calls == [] then [] else StepsOf(calls[0]) + StepsOfRun(calls[1..])
  }

  /** Over the life of a handle, the entropy source is what the requests and
      restores make of it, and nothing else touches it: no reset, no save and no
      call that fails. */
  lemma {:induction false} EntropyOverRun(w: World, calls: seq<Call>)
    requires Inv(w) && w.handles > 0 && Run(w, calls).Some?
    requires forall k :: 0 <= k < |calls| ==> !calls[k].Drop?
    ensures var end := Run(w, calls).value;
            && end.handles > 0 && end.platform.Some?
            && end.platform.value.entropy == Entropy.StateAfter(w.platform.value.entropy, StepsOfRun(calls))
    decreases |calls|
  {
    if calls != [] {
      var call, next := calls[0], Perform(w, calls[0]).0;
      PerformKeepsInv(w, call);
      EntropyOfCall(w, call);
      EntropyOverRun(next, calls[1..]);
      Entropy.StateAfterConcat(w.platform.value.entropy, StepsOf(call), StepsOfRun(calls[1..]));
    }
  }

  lemma EntropyOfCall(w: World, call: Call)
    requires Inv(w) && w.handles > 0 && Legal(w, call) && !call.Drop?
    ensures var next := Perform(w, call).0;
            && next.handles > 0 && next.platform.Some?
            && next.platform.value.entropy == Entropy.StateAfter(w.platform.value.entropy, StepsOf(call))
  {
    var entries := ForeignCalls(w, call);
    if entries != [] {
      CallBacksDraw(entries[0].world, entries[0].foreign.callbacks, |entries[0].foreign.callbacks|);
    }
  }
}
