/** What the public interface promises over whole runs. */
module PlatformTheorems {
  import opened Bytes
  import opened Clock
  import opened Failure
  import opened RuntimeState
  import opened RestoreTheorems
  import opened Platform
  import opened SequenceObjects
  import opened Wrappers
  import NvMemory
  import Hooks = RuntimeStateHooks

  // ---------------------------------------------------------------- the singleton

  /** A failed manufacture leaves the singleton behind without a handle. From then
      on no run of the interface gets anywhere: every initialization reports
      that the platform is already initialized, and nothing changes. */
  lemma {:induction false} ManufactureFailureIsFinal(w: World, calls: seq<Call>)
    requires Inv(w) && w.platform.Some? && w.handles == 0
    requires Run(w, calls).Some?
    ensures Run(w, calls).value == w
    ensures forall k :: 0 <= k < |calls| ==>
              calls[k].Initialize? && Legal(w, calls[k]) && Perform(w, calls[k]) == (w, Err(AlreadyInitialized))
    decreases |calls|
  {
    if calls != [] {
      assert Perform(w, calls[0]) == (w, Err(AlreadyInitialized));
      ManufactureFailureIsFinal(w, calls[1..]);
      forall k | 0 <= k < |calls|
        ensures calls[k].Initialize? && Legal(w, calls[k]) && Perform(w, calls[k]) == (w, Err(AlreadyInitialized))
      {
        assert k > 0 ==> calls[k] == calls[1..][k - 1];
      }
    }
  }

  /** An initialization that gets as far as a manufacture, and fails there. */
  predicate Orphans(w: World, call: Call) {
    && call.Initialize? && w.platform.None? && call.manufactureCode != 0
    && match call.kind
       case ColdInit => true
       case ColdInitWithSize(size) => size == NvMemory.NV_MEMORY_SIZE
       case PersistentState(_) => false
  }

  /** A platform without a handle arises exactly from such a call. */
  lemma OrphanedByManufacture(w: World, call: Call)
    requires Inv(w) && Legal(w, call) && (w.platform.Some? <==> w.handles == 1)
    ensures var after := Perform(w, call).0;
            after.platform.Some? && after.handles == 0 <==> Orphans(w, call)
  {
  }

  predicate NeverOrphans(w: World, calls: seq<Call>)
    requires Inv(w)
    decreases |calls|
  {
    if calls == [] || !Legal(w, calls[0]) then true
    else
      PerformKeepsInv(w, calls[0]);
      !Orphans(w, calls[0]) && NeverOrphans(Perform(w, calls[0]).0, calls[1..])
  }

  /** From the start of the process, every run keeps the invariant, and the
      singleton lives exactly as long as its handle unless a call orphaned it. */
  lemma {:induction false} SingletonOverRun(w: World, calls: seq<Call>)
    requires Inv(w) && Run(w, calls).Some?
    requires w.platform.Some? <==> w.handles == 1
    ensures var end := Run(w, calls).value;
            && Inv(end)
            && ((end.platform.Some? <==> end.handles == 1) <==> NeverOrphans(w, calls))
    decreases |calls|
  {
    if calls != [] {
      var next := Perform(w, calls[0]).0;
      PerformKeepsInv(w, calls[0]);
      OrphanedByManufacture(w, calls[0]);
      if Orphans(w, calls[0]) {
        ManufactureFailureIsFinal(next, calls[1..]);
      } else {
        SingletonOverRun(next, calls[1..]);
      }
    }
  }

  // ---------------------------------------------------------------- initialization

  /** How many bytes of NV memory an initialization asks for. */
  function AskedSize(kind: InitKind): nat {
    match kind
    case ColdInit => 128 * 1024
    case ColdInitWithSize(size) => size
    case PersistentState(blob) => |blob|
  }

  /** Every answer of an initialization: success exactly if it adds a handle, the
      library's code exactly if a manufacture failed with it, and the two
      refusals, which change nothing. */
  lemma InitializeAnswers(w: World, call: Call)
    requires Inv(w) && call.Initialize? && Legal(w, call)
    ensures var (after, r) := Perform(w, call);
            var size := AskedSize(call.kind);
            && (r == Ok(()) <==> after.handles == w.handles + 1)
            && (r != Ok(()) <==> after.handles == w.handles)
            && (forall code :: r == Err(Ffi(code)) <==> Orphans(w, call) && code == call.manufactureCode)
            && (r == Err(AlreadyInitialized) <==> w.platform.Some?)
            && (forall error :: r == Err(NvMem(error))
                                <==> w.platform.None? && size != 128 * 1024
                                     && error == NvMemory.MismatchedBlobSize(128 * 1024, size))
            && (w.platform.Some? || size != 128 * 1024 ==> after == w)
  {
  }

  /** A platform as it starts: not cancelled, the clock at zero and 30000 ticks a
      millisecond with its flags raised, no failure, locality zero, NV memory in
      use, the power loss noted, and no entropy yet. */
  function Fresh(image: seq<byte>): PlatformState {
    PlatformState(false, Clock(30000, true, true, 0, 0, 0, 0), Failure(0, 0, false), 0,
                  NvMemory.Nv(image, true), true, None)
  }

  /** What an initialization that is not refused does: manufacture a platform with
      zeroed NV memory, unless it was given an image, and then start the library. */
  lemma InitializeStarts(w: World, call: Call)
    requires Inv(w) && call.Initialize? && Legal(w, call)
    requires w.platform.None? && AskedSize(call.kind) == 128 * 1024
    ensures var (after, r) := Perform(w, call);
            match call.kind
            case PersistentState(blob) =>
              after == ForeignStep(w.(platform := Some(Fresh(blob))), call.tpmInit).(handles := w.handles + 1)
            case _ =>
              var made := ForeignStep(w.(platform := Some(Fresh(Zeros(128 * 1024)))), call.manufacture);
              after == if call.manufactureCode != 0 then made
                       else ForeignStep(made, call.tpmInit).(handles := w.handles + 1)
  {
  }

  // ---------------------------------------------------------------- commands

  /** The size field of a request, behind its tag: four bytes, the most significant first. */
  predicate SizeFieldIs(request: seq<byte>, n: nat) {
    && |request| >= 6 && n < 0x1_0000_0000
    && request[2] == n / 0x100_0000
    && request[3] == n / 0x1_0000 % 0x100
    && request[4] == n / 0x100 % 0x100
    && request[5] == n % 0x100
  }

  lemma SizeFieldDigits(a: byte, b: byte, c: byte, d: byte, n: nat)
    requires n < 0x1_0000_0000
    ensures a == n / 0x100_0000 && b == n / 0x1_0000 % 0x100 && c == n / 0x100 % 0x100 && d == n % 0x100
            <==> n == a * 0x100_0000 + b * 0x1_0000 + c * 0x100 + d
  {
    LastDigit(n, n / 0x100, d);
    LastDigit(n / 0x100, n / 0x1_0000, c);
    LastDigit(n / 0x1_0000, n / 0x100_0000, b);
    if n == a * 0x100_0000 + b * 0x1_0000 + c * 0x100 + d {
      LastDigit(n, a * 0x1_0000 + b * 0x100 + c, d);
      LastDigit(n / 0x100, a * 0x100 + b, c);
      LastDigit(n / 0x1_0000, a, b);
    }
  }

  lemma LastDigit(n: nat, rest: nat, digit: byte)
    ensures n == rest * 0x100 + digit <==> rest == n / 0x100 && digit == n % 0x100
  {
  }

  /** A request is refused exactly if it is too short to have a size field, or
      shorter than that field says; otherwise the library runs, on as much of the
      request as the field says. */
  lemma CommandSize(w: World, request: seq<byte>, command: Foreign, n: nat)
    requires Inv(w) && Legal(w, ExecuteCommand(request, command)) && SizeFieldIs(request, n)
    ensures Perform(w, ExecuteCommand(request, command))
         == if n > |request| % 0x1_0000_0000 then (w, Err(InvalidRequestSize)) else (ForeignStep(w, command), Ok(()))
    ensures RequestLength(request) == if n > |request| % 0x1_0000_0000 then None else Some(n)
    ensures n == |request| ==> RequestLength(request) == Some(|request|)
  {
    SizeFieldDigits(request[2], request[3], request[4], request[5], n);
    assert BigEndian32(request[2..6]) == n;
  }

  /** Every request has a size field, unless it is too short for one and refused. */
  lemma SizeFieldOf(w: World, request: seq<byte>, command: Foreign) returns (n: nat)
    requires Inv(w) && Legal(w, ExecuteCommand(request, command))
    ensures |request| >= 6 ==> SizeFieldIs(request, n)
    ensures |request| < 6 ==> Perform(w, ExecuteCommand(request, command)) == (w, Err(InvalidRequestSize))
  {
    n := 0;
    if |request| >= 6 {
      n := (request[2] as int) * 0x100_0000 + (request[3] as int) * 0x1_0000 + (request[4] as int) * 0x100 + request[5] as int;
      SizeFieldDigits(request[2], request[3], request[4], request[5], n);
    }
  }

  /** The cancel flag and the locality, over any run of a live platform: what was
      set last, or what the last restore brought. */
  function LastCancel(cancel: bool, calls: seq<Call>): bool
    decreases |calls|
  {
    if calls == [] then cancel
    else
      match calls[|calls| - 1]
      case SetCancelFlag(enabled) => enabled
      case RestoreState(snapshot, _) => snapshot.platform.cancel
      case _ => LastCancel(cancel, calls[..|calls| - 1])
  }

  function LastLocality(locality: nat, calls: seq<Call>): nat
    decreases |calls|
  {
    if calls == [] then locality
    else
      match calls[|calls| - 1]
      case SetLocality(l) => l
      case RestoreState(snapshot, _) => snapshot.platform.locality
      case _ => LastLocality(locality, calls[..|calls| - 1])
  }

  lemma {:induction false} SettingsOverRun(w: World, calls: seq<Call>)
    requires Inv(w) && w.handles > 0 && Run(w, calls).Some?
    requires forall k :: 0 <= k < |calls| ==> !calls[k].Drop?
    ensures var end := Run(w, calls).value;
            && end.handles > 0 && end.platform.Some?
            && end.platform.value.cancel == LastCancel(w.platform.value.cancel, calls)
            && end.platform.value.locality == LastLocality(w.platform.value.locality, calls)
    decreases |calls|
  {
    if calls != [] {
      var init, last := calls[..|calls| - 1], calls[|calls| - 1];
      assert calls == init + [last];
      RunOfConcat(w, init, [last]);
      SettingsOverRun(w, init);
      var before := Run(w, init).value;
      assert [last][1..] == [];
      PerformKeepsInv(before, last);
      SettingsOfCall(before, last);
    }
  }

  lemma SettingsOfCall(w: World, call: Call)
    requires Inv(w) && w.handles > 0 && Legal(w, call) && !call.Drop?
    ensures var next := Perform(w, call).0;
            && next.handles > 0 && next.platform.Some?
            && next.platform.value.cancel == LastCancel(w.platform.value.cancel, [call])
            && next.platform.value.locality == LastLocality(w.platform.value.locality, [call])
  {
    assert [call][..0] == [];
    match call {
      case Reset(blob, tpmInit) => CallBacksKeepSettings(PoweredAgain(w, blob), tpmInit.callbacks, |tpmInit.callbacks|);
      case ExecuteCommand(_, command) => CallBacksKeepSettings(w, command.callbacks, |command.callbacks|);
      case _ =>
    }
  }

  lemma {:induction false} CallBacksKeepSettings(w: World, callbacks: seq<Callback>, n: nat)
    requires w.platform.Some? && n <= |callbacks|
    ensures var p := CallBackUpTo(w, callbacks, n).platform.value;
            p.cancel == w.platform.value.cancel && p.locality == w.platform.value.locality
    decreases n
  {
    if n > 0 {
      CallBacksKeepSettings(w, callbacks, n - 1);
    }
  }

  // ---------------------------------------------------------------- the NV image

  /** The NV requests among the callbacks of a foreign call. */
  function NvRequests(callbacks: seq<Callback>, n: nat): seq<NvMemory.Request>
    requires n <= |callbacks|
    decreases n
  {
    if n == 0 then []
    else
      NvRequests(callbacks, n - 1)
      + if callbacks[n - 1].NvRequest? then [callbacks[n - 1].request] else []
  }

  /** The region and flag after the requests of a foreign call. */
  function Served(nv: NvMemory.Nv, foreign: Foreign): NvMemory.Nv {
    NvMemory.ServeAll(nv, NvRequests(foreign.callbacks, |foreign.callbacks|))
  }

  lemma {:induction false} CallBacksServe(w: World, callbacks: seq<Callback>, n: nat)
    requires w.platform.Some? && n <= |callbacks|
    ensures CallBackUpTo(w, callbacks, n).platform.value.nvmem
         == NvMemory.ServeAll(w.platform.value.nvmem, NvRequests(callbacks, n))
    decreases n
  {
    if n > 0 {
      CallBacksServe(w, callbacks, n - 1);
      var callback, earlier := callbacks[n - 1], NvRequests(callbacks, n - 1);
      CallBackServes(CallBackUpTo(w, callbacks, n - 1).platform.value, callback);
      if callback.NvRequest? {
        NvMemory.ServeAllOfConcat(w.platform.value.nvmem, earlier, [callback.request]);
        assert [callback.request][1..] == [];
      } else {
        assert NvRequests(callbacks, n) == earlier;
      }
    }
  }

  lemma CallBackServes(p: PlatformState, callback: Callback)
    ensures OnState(p, callback).nvmem
         == if callback.NvRequest? then NvMemory.Serve(p.nvmem, callback.request).0 else p.nvmem
  {
  }

  /** Reset hands the library the old NV image, or the new blob, already in use,
      so that no enabling, by power-on or by the library, zeroes it. It fails
      only for a blob of the wrong size, and then the bytes survive, not in use. */
  lemma ResetKeepsNv(w: World, blob: Option<seq<byte>>, tpmInit: Foreign)
    requires Inv(w) && Legal(w, Reset(blob, tpmInit))
    ensures var (after, r) := Perform(w, Reset(blob, tpmInit));
            var region := w.platform.value.nvmem.region;
            && after.platform.Some?
            && var nv := after.platform.value.nvmem;
            match blob
            case None => r == Ok(()) && nv == Served(NvMemory.Nv(region, true), tpmInit)
            case Some(bytes) =>
              if |bytes| == NvMemory.NV_MEMORY_SIZE
              then r == Ok(()) && nv == Served(NvMemory.Nv(bytes, true), tpmInit)
              else r == Err(NvMem(NvMemory.MismatchedBlobSize(NvMemory.NV_MEMORY_SIZE, |bytes|)))
                   && nv == NvMemory.Nv(region, false)
                   && after == w.(platform := Some(PowerOff(w.platform.value)))
  {
    var off := PowerOff(w.platform.value);
    var nvmem := if blob.Some? then NvMemory.EnableFromBlob(off.nvmem, blob.value).0 else off.nvmem.(isInit := true);
    if blob.None? || |blob.value| == NvMemory.NV_MEMORY_SIZE {
      var on := w.(platform := Some(PowerOn(off.(nvmem := nvmem))));
      CallBacksServe(on, tpmInit.callbacks, |tpmInit.callbacks|);
    }
  }

  /** A reset refused for the size of its blob. */
  predicate IsRefusedReset(call: Call) {
    call.Reset? && call.nvmemBlob.Some? && |call.nvmemBlob.value| != NvMemory.NV_MEMORY_SIZE
  }

  /** Calls that leave the platform its NV image, to work on or out of use. */
  predicate KeepsImage(call: Call) {
    call.ExecuteCommand? || call.SaveState? || call.SetCancelFlag? || call.SetLocality? || IsRefusedReset(call)
  }

  /** What such a call does to the NV image. */
  function EventsOf(call: Call): seq<NvMemory.Event> {
    if call.Reset? then [NvMemory.PoweredOff]
    else if call.ExecuteCommand? && RequestLength(call.request).Some?
    then NvMemory.AllMade(NvRequests(call.command.callbacks, |call.command.callbacks|))
    else []
  }

  function EventsOfRun(calls: seq<Call>): seq<NvMemory.Event>
    decreases |calls|
  {
    if calls == [] then [] else EventsOf(calls[0]) + EventsOfRun(calls[1..])
  }

  function WithoutResets(calls: seq<Call>): (r: seq<Call>)
    ensures forall k :: 0 <= k < |r| ==> r[k] in calls && !r[k].Reset?
    decreases |calls|
  {
    if calls == [] then [] else (if calls[0].Reset? then [] else [calls[0]]) + WithoutResets(calls[1..])
  }

  lemma {:induction false} EventsHappen(w: World, calls: seq<Call>)
    requires Inv(w) && w.handles > 0 && Run(w, calls).Some?
    requires forall k :: 0 <= k < |calls| ==> KeepsImage(calls[k])
    ensures var end := Run(w, calls).value;
            && end.platform.Some? && end.handles == w.handles
            && end.platform.value.nvmem == NvMemory.HappenAll(w.platform.value.nvmem, EventsOfRun(calls))
    decreases |calls|
  {
    if calls != [] {
      var next := Perform(w, calls[0]).0;
      PerformKeepsInv(w, calls[0]);
      EventsOfCall(w, calls[0]);
      EventsHappen(next, calls[1..]);
      NvMemory.HappenAllOfConcat(w.platform.value.nvmem, EventsOf(calls[0]), EventsOfRun(calls[1..]));
    }
  }

  lemma EventsOfCall(w: World, call: Call)
    requires Inv(w) && w.handles > 0 && Legal(w, call) && KeepsImage(call)
    ensures var next := Perform(w, call).0;
            && next.platform.Some? && next.handles == w.handles
            && next.platform.value.nvmem == NvMemory.HappenAll(w.platform.value.nvmem, EventsOf(call))
  {
    var nv := w.platform.value.nvmem;
    if call.Reset? {
      ResetKeepsNv(w, call.nvmemBlob, call.tpmInit);
      assert [NvMemory.PoweredOff][1..] == [];
    } else if call.ExecuteCommand? && RequestLength(call.request).Some? {
      CallBacksServe(w, call.command.callbacks, |call.command.callbacks|);
      NvMemory.HappenAllMade(nv, NvRequests(call.command.callbacks, |call.command.callbacks|));
    }
  }

  /** Leaving out the refused resets leaves the same requests, and nothing else. */
  lemma {:induction false} SparedEvents(nv: NvMemory.Nv, calls: seq<Call>)
    requires forall k :: 0 <= k < |calls| ==> KeepsImage(calls[k])
    ensures NvMemory.HappenAll(nv, EventsOfRun(WithoutResets(calls)))
         == NvMemory.ServeAll(nv, NvMemory.RequestsIn(EventsOfRun(calls)))
    decreases |calls|
  {
    if calls != [] {
      var call, events := calls[0], EventsOf(calls[0]);
      NvMemory.RequestsInConcat(events, EventsOfRun(calls[1..]));
      if call.Reset? {
        assert WithoutResets(calls) == WithoutResets(calls[1..]);
        assert NvMemory.RequestsIn(events) == [] by { assert events[1..] == []; }
        assert [] + NvMemory.RequestsIn(EventsOfRun(calls[1..])) == NvMemory.RequestsIn(EventsOfRun(calls[1..]));
        SparedEvents(nv, calls[1..]);
      } else {
        var requests := if events == [] then [] else NvRequests(call.command.callbacks, |call.command.callbacks|);
        NvMemory.HappenAllMade(nv, requests);
        assert events == NvMemory.AllMade(requests);
        var spared := WithoutResets(calls[1..]);
        assert WithoutResets(calls) == [call] + spared && ([call] + spared)[1..] == spared;
        NvMemory.HappenAllOfConcat(nv, events, EventsOfRun(spared));
        NvMemory.ServeAllOfConcat(nv, requests, NvMemory.RequestsIn(EventsOfRun(calls[1..])));
        SparedEvents(NvMemory.ServeAll(nv, requests), calls[1..]);
      }
    }
  }

  lemma {:induction false} RunOfConcat(w: World, a: seq<Call>, b: seq<Call>)
    requires Inv(w)
    ensures Run(w, a + b) == if Run(w, a).Some? then Run(Run(w, a).value, b) else None
    decreases |a|
  {
    if a == [] {
      assert a + b == b;
    } else if Legal(w, a[0]) {
      assert (a + b)[0] == a[0] && (a + b)[1..] == a[1..] + b;
      PerformKeepsInv(w, a[0]);
      RunOfConcat(Perform(w, a[0]).0, a[1..], b);
    }
  }

  /** A run and then a plain reset: the library starts from the image as the run left it. */
  lemma ResetAfterRun(w: World, calls: seq<Call>, tpmInit: Foreign)
    requires Inv(w) && w.handles > 0 && Run(w, calls).Some?
    requires SameBuild(tpmInit.library, w.library.vars)
    requires forall k :: 0 <= k < |calls| ==> KeepsImage(calls[k])
    ensures var end := Run(w, calls + [Reset(None, tpmInit)]);
            var image := NvMemory.HappenAll(w.platform.value.nvmem, EventsOfRun(calls)).region;
            && end.Some? && end.value.platform.Some?
            && end.value.platform.value.nvmem == Served(NvMemory.Nv(image, true), tpmInit)
  {
    var reset := Reset(None, tpmInit);
    RunOfConcat(w, calls, [reset]);
    EventsHappen(w, calls);
    var up := Run(w, calls).value;
    ResetKeepsNv(up, None, tpmInit);
    PerformKeepsInv(up, reset);
    assert [reset][0] == reset && [reset][1..] == [];
    assert Run(up, [reset]) == Run(Perform(up, reset).0, []);
  }

  /** Leaving out resets makes no other call illegal. */
  lemma {:induction false} SparedRun(w: World, v: World, calls: seq<Call>)
    requires Inv(w) && Inv(v) && w.handles > 0 && v.handles > 0 && SameSizes(w.library.vars, v.library.vars)
    requires Run(w, calls).Some?
    requires forall k :: 0 <= k < |calls| ==> KeepsImage(calls[k])
    ensures Run(v, WithoutResets(calls)).Some?
    decreases |calls|
  {
    if calls != [] {
      var call, spared := calls[0], WithoutResets(calls[1..]);
      PerformKeepsInv(w, call);
      EventsOfCall(w, call);
      if call.Reset? {
        assert WithoutResets(calls) == spared;
        SparedRun(Perform(w, call).0, v, calls[1..]);
      } else {
        assert WithoutResets(calls) == [call] + spared && ([call] + spared)[1..] == spared;
        PerformKeepsInv(v, call);
        EventsOfCall(v, call);
        SparedRun(Perform(w, call).0, Perform(v, call).0, calls[1..]);
      }
    }
  }

  /** Any number of resets refused for the size of their blob, among any run of
      commands, and then a plain reset. The image that the library starts from is
      that of the same run without the refused resets, unless the library enabled
      NV after one of them and a byte was lost to that. */
  lemma RecoveryAfterFailedReset(w: World, calls: seq<Call>, tpmInit: Foreign)
    requires Inv(w) && w.handles > 0 && Run(w, calls).Some?
    requires SameBuild(tpmInit.library, w.library.vars)
    requires forall k :: 0 <= k < |calls| ==> KeepsImage(calls[k])
    ensures var nv, events := w.platform.value.nvmem, EventsOfRun(calls);
            var end := Run(w, calls + [Reset(None, tpmInit)]);
            var spared := Run(w, WithoutResets(calls) + [Reset(None, tpmInit)]);
            var handed, kept := NvMemory.HappenAll(nv, events).region, NvMemory.ServeAll(nv, NvMemory.RequestsIn(events)).region;
            && end.Some? && end.value.platform.Some? && spared.Some? && spared.value.platform.Some?
            && end.value.platform.value.nvmem == Served(NvMemory.Nv(handed, true), tpmInit)
            && spared.value.platform.value.nvmem == Served(NvMemory.Nv(kept, true), tpmInit)
            && (handed == kept <==> NvMemory.NothingLost(nv, nv.isInit, events))
  {
    var nv := w.platform.value.nvmem;
    SparedRun(w, w, calls);
    ResetAfterRun(w, calls, tpmInit);
    ResetAfterRun(w, WithoutResets(calls), tpmInit);
    SparedEvents(nv, calls);
    NvMemory.OutOfUse(nv, nv.region, nv.isInit, EventsOfRun(calls));
  }

  // ---------------------------------------------------------------- power and failure

  /** The world in which a reset starts the library: the clock as at power-on, the
      power loss noted, the NV image in use, and everything else as it was. */
  function PoweredAgain(w: World, blob: Option<seq<byte>>): World
    requires w.platform.Some?
  {
    var was := w.platform.value;
    w.(platform := Some(was.(clock := POWER_ON, powerLost := true,
                             nvmem := NvMemory.Nv(blob.GetOr(was.nvmem.region), true))))
  }

  /** A reset is a power cycle. What was not cleared by it is left to the library:
      one that announces the start of its initialization and reports no failure
      leaves the failure latch clear, whatever it held. */
  lemma ResetIsAPowerCycle(w: World, blob: Option<seq<byte>>, tpmInit: Foreign)
    requires Inv(w) && Legal(w, Reset(blob, tpmInit))
    ensures var (after, r) := Perform(w, Reset(blob, tpmInit));
            var callbacks := tpmInit.callbacks;
            && (r == Ok(()) <==> blob.None? || |blob.value| == NvMemory.NV_MEMORY_SIZE)
            && (r == Ok(()) ==> after == ForeignStep(PoweredAgain(w, blob), tpmInit))
            && (r == Ok(()) && callbacks != [] && callbacks[0] == StartTpmInit
                && (forall i :: 0 <= i < |callbacks| ==> !callbacks[i].PlatFail?) ==>
                  after.platform.value.failure == NO_FAILURE)
  {
    var callbacks, powered := tpmInit.callbacks, PoweredAgain(w, blob);
    if callbacks != [] && callbacks[0] == StartTpmInit
       && forall i :: 0 <= i < |callbacks| ==> !callbacks[i].PlatFail?
    {
      ClearOnceStarted(powered, callbacks, |callbacks|);
    }
  }

  lemma {:induction false} ClearOnceStarted(w: World, callbacks: seq<Callback>, n: nat)
    requires w.platform.Some? && 0 < n <= |callbacks| && callbacks[0] == StartTpmInit
    requires forall i :: 0 <= i < |callbacks| ==> !callbacks[i].PlatFail?
    ensures CallBackUpTo(w, callbacks, n).platform.value.failure == NO_FAILURE
    decreases n
  {
    if n > 1 {
      ClearOnceStarted(w, callbacks, n - 1);
    } else {
      assert CallBackUpTo(w, callbacks, 1) == CallBack(CallBackUpTo(w, callbacks, 0), callbacks[0]);
    }
  }

  /** What the latch holds of a report. */
  function RecordOf(callback: Callback): Failure
    requires callback.PlatFail?
  {
    Failure(if callback.code >= 0 then callback.code else callback.code + 0x1_0000_0000, callback.location, true)
  }

  /** From one start of initialization to the next, the failure that stays
      recorded is the first one reported. */
  lemma {:induction false} FirstFailureWins(w: World, callbacks: seq<Callback>, from: nat, n: nat)
    requires w.platform.Some? && from <= n <= |callbacks|
    requires forall i :: from <= i < n ==> callbacks[i] != StartTpmInit
    ensures var was := CallBackUpTo(w, callbacks, from).platform.value.failure;
            var now := CallBackUpTo(w, callbacks, n).platform.value.failure;
            && (from > 0 && callbacks[from - 1] == StartTpmInit ==> was == Failure(0, 0, false))
            && if was.inFailureMode || !exists i :: from <= i < n && callbacks[i].PlatFail? then now == was
               else exists i :: && from <= i < n && callbacks[i].PlatFail?
                                && (forall j :: from <= j < i ==> !callbacks[j].PlatFail?)
                                && now == RecordOf(callbacks[i])
    decreases n
  {
    if from > 0 {
      FailureAfter(CallBackUpTo(w, callbacks, from - 1).platform.value, callbacks[from - 1]);
    }
    if n > from {
      FirstFailureWins(w, callbacks, from, n - 1);
      FailureAfter(CallBackUpTo(w, callbacks, n - 1).platform.value, callbacks[n - 1]);
    }
  }

  lemma FailureAfter(p: PlatformState, callback: Callback)
    ensures OnState(p, callback).failure
         == if callback == StartTpmInit then Failure(0, 0, false)
            else if callback.PlatFail? && !p.failure.inFailureMode then RecordOf(callback)
            else p.failure
  {
  }

  // ---------------------------------------------------------------- durability

  /** A foreign call, in the world it is entered in. */
  datatype Entry = Entry(world: World, foreign: Foreign)

  function Left(entry: Entry): World
    requires entry.world.platform.Some?
  {
    ForeignStep(entry.world, entry.foreign)
  }

  /** The foreign calls that a call of the interface makes, in order. */
  function ForeignCalls(w: World, call: Call): (r: seq<Entry>)
    requires Inv(w) && Legal(w, call)
    ensures forall k :: 0 <= k < |r| ==> r[k].world.platform.Some?
  {
    match call
    case Initialize(kind, manufacture, code, tpmInit) =>
      if w.platform.Some? || Prepare(kind).1.Err? then []
      else
        var made := Entry(w.(platform := Some(PowerOn(Prepare(kind).0))), manufacture);
        if kind.PersistentState? then [Entry(made.world, tpmInit)]
        else if code != 0 then [made]
        else [made, Entry(Left(made), tpmInit)]
    case Reset(blob, tpmInit) =>
      if blob.Some? && |blob.value| != NvMemory.NV_MEMORY_SIZE then [] else [Entry(PoweredAgain(w, blob), tpmInit)]
    case ExecuteCommand(request, command) =>
      if RequestLength(request).None? then [] else [Entry(w, command)]
    case _ => []
  }

  /** Nothing but foreign calls touches the store, and each goes on from the
      store that the one before it left. */
  lemma StoreIsHandedOn(w: World, call: Call)
    requires Inv(w) && Legal(w, call)
    ensures var entries := ForeignCalls(w, call);
            && (forall k :: 0 <= k < |entries| ==>
                  entries[k].world.store == if k == 0 then w.store else Left(entries[k - 1]).store)
            && Perform(w, call).0.store == if entries == [] then w.store else Left(entries[|entries| - 1]).store
  {
  }

  predicate Uncommitting(foreign: Foreign) {
    NvCommit(true) !in foreign.callbacks
  }

  /** No commit succeeds in a foreign call that is made. */
  predicate CommitsNothing(w: World, call: Call)
    requires Inv(w) && Legal(w, call)
  {
    forall k :: 0 <= k < |ForeignCalls(w, call)| ==> Uncommitting(ForeignCalls(w, call)[k].foreign)
  }

  predicate RunCommitsNothing(w: World, calls: seq<Call>)
    requires Inv(w) && Run(w, calls).Some?
    decreases |calls|
  {
    if calls == [] then true
    else
      PerformKeepsInv(w, calls[0]);
      CommitsNothing(w, calls[0]) && RunCommitsNothing(Perform(w, calls[0]).0, calls[1..])
  }

  /** Callback `i` of foreign call `f` is the last commit of the call that succeeds. */
  predicate LastCommitAt(w: World, call: Call, f: nat, i: nat)
    requires Inv(w) && Legal(w, call)
  {
    var entries := ForeignCalls(w, call);
    && f < |entries| && i < |entries[f].foreign.callbacks| && entries[f].foreign.callbacks[i] == NvCommit(true)
    && (forall j :: i < j < |entries[f].foreign.callbacks| ==> entries[f].foreign.callbacks[j] != NvCommit(true))
    && (forall k :: f < k < |entries| ==> Uncommitting(entries[k].foreign))
  }

  /** The NV image at callback `i` of a foreign call. */
  function ImageAt(entry: Entry, i: nat): seq<byte>
    requires entry.world.platform.Some? && i <= |entry.foreign.callbacks|
  {
    CallBackUpTo(entry.world, entry.foreign.callbacks, i).platform.value.nvmem.region
  }

  lemma {:induction false} NoCommitKeepsStore(w: World, callbacks: seq<Callback>, from: nat, n: nat)
    requires w.platform.Some? && from <= n <= |callbacks|
    requires forall j :: from <= j < n ==> callbacks[j] != NvCommit(true)
    ensures CallBackUpTo(w, callbacks, n).store == CallBackUpTo(w, callbacks, from).store
    decreases n
  {
    if n > from {
      NoCommitKeepsStore(w, callbacks, from, n - 1);
    }
  }

  lemma {:induction false} UncommittingTail(w: World, call: Call, from: nat, n: nat)
    requires Inv(w) && Legal(w, call) && from <= n <= |ForeignCalls(w, call)|
    requires forall k :: from <= k < n ==> Uncommitting(ForeignCalls(w, call)[k].foreign)
    ensures var entries := ForeignCalls(w, call);
            (if n == 0 then w.store else Left(entries[n - 1]).store)
            == (if from == 0 then w.store else Left(entries[from - 1]).store)
    decreases n
  {
    if n > from {
      var entry := ForeignCalls(w, call)[n - 1];
      UncommittingTail(w, call, from, n - 1);
      StoreIsHandedOn(w, call);
      NoCommitKeepsStore(entry.world, entry.foreign.callbacks, 0, |entry.foreign.callbacks|);
    }
  }

  lemma StoreOfCall(w: World, call: Call)
    requires Inv(w) && Legal(w, call)
    ensures CommitsNothing(w, call) ==> Perform(w, call).0.store == w.store
    ensures forall f: nat, i: nat | LastCommitAt(w, call, f, i) ::
              Perform(w, call).0.store == Some(ImageAt(ForeignCalls(w, call)[f], i))
  {
    var entries := ForeignCalls(w, call);
    StoreIsHandedOn(w, call);
    if CommitsNothing(w, call) {
      UncommittingTail(w, call, 0, |entries|);
    }
    forall f: nat, i: nat | LastCommitAt(w, call, f, i)
      ensures Perform(w, call).0.store == Some(ImageAt(entries[f], i))
    {
      var callbacks := entries[f].foreign.callbacks;
      UncommittingTail(w, call, f + 1, |entries|);
      NoCommitKeepsStore(entries[f].world, callbacks, i + 1, |callbacks|);
    }
  }

  lemma {:induction false} StoreKeptOverRun(w: World, calls: seq<Call>)
    requires Inv(w) && Run(w, calls).Some? && RunCommitsNothing(w, calls)
    ensures Run(w, calls).value.store == w.store
    decreases |calls|
  {
    if calls != [] {
      PerformKeepsInv(w, calls[0]);
      StoreOfCall(w, calls[0]);
      StoreKeptOverRun(Perform(w, calls[0]).0, calls[1..]);
    }
  }

  /** Callback `i` of foreign call `f` of call `c` is the last commit of the run that succeeds. */
  predicate LastCommitOfRun(w: World, calls: seq<Call>, c: nat, f: nat, i: nat)
    requires Inv(w) && Run(w, calls).Some?
    decreases |calls|
  {
    if calls == [] then false
    else
      PerformKeepsInv(w, calls[0]);
      var next := Perform(w, calls[0]).0;
      if c == 0 then LastCommitAt(w, calls[0], f, i) && RunCommitsNothing(next, calls[1..])
      else LastCommitOfRun(next, calls[1..], c - 1, f, i)
  }

  /** The NV image at that moment. */
  function ImageAtCommit(w: World, calls: seq<Call>, c: nat, f: nat, i: nat): seq<byte>
    requires Inv(w) && Run(w, calls).Some? && LastCommitOfRun(w, calls, c, f, i)
    decreases |calls|
  {
    PerformKeepsInv(w, calls[0]);
    if c == 0 then ImageAt(ForeignCalls(w, calls[0])[f], i)
    else ImageAtCommit(Perform(w, calls[0]).0, calls[1..], c - 1, f, i)
  }

  /** Whichever foreign call it was made in, and whatever followed it there or
      later, the store holds the image of the last successful commit. */
  lemma {:induction false} StoreIsLastCommit(w: World, calls: seq<Call>, c: nat, f: nat, i: nat)
    requires Inv(w) && Run(w, calls).Some? && LastCommitOfRun(w, calls, c, f, i)
    ensures Run(w, calls).value.store == Some(ImageAtCommit(w, calls, c, f, i))
    decreases |calls|
  {
    PerformKeepsInv(w, calls[0]);
    var next := Perform(w, calls[0]).0;
    if c == 0 {
      StoreOfCall(w, calls[0]);
      StoreKeptOverRun(next, calls[1..]);
    } else {
      StoreIsLastCommit(next, calls[1..], c - 1, f, i);
    }
  }

  lemma {:induction false} FindLast(callbacks: seq<Callback>, n: nat) returns (i: nat)
    requires n <= |callbacks| && exists j :: 0 <= j < n && callbacks[j] == NvCommit(true)
    ensures i < n && callbacks[i] == NvCommit(true)
    ensures forall j :: i < j < n ==> callbacks[j] != NvCommit(true)
    decreases n
  {
    if callbacks[n - 1] == NvCommit(true) {
      i := n - 1;
    } else {
      i := FindLast(callbacks, n - 1);
    }
  }

  lemma FindLastCommit(w: World, call: Call) returns (f: nat, i: nat)
    requires Inv(w) && Legal(w, call) && !CommitsNothing(w, call)
    ensures LastCommitAt(w, call, f, i)
  {
    var entries := ForeignCalls(w, call);
    f := if Uncommitting(entries[|entries| - 1].foreign) then 0 else |entries| - 1;
    i := FindLast(entries[f].foreign.callbacks, |entries[f].foreign.callbacks|);
  }

  /** Every run either commits nothing, and then the store is as it was, or has a last commit. */
  lemma {:induction false} CommitsOrKeeps(w: World, calls: seq<Call>) returns (c: nat, f: nat, i: nat)
    requires Inv(w) && Run(w, calls).Some?
    ensures if RunCommitsNothing(w, calls) then Run(w, calls).value.store == w.store
            else LastCommitOfRun(w, calls, c, f, i)
    decreases |calls|
  {
    c, f, i := 0, 0, 0;
    if RunCommitsNothing(w, calls) {
      StoreKeptOverRun(w, calls);
    } else {
      PerformKeepsInv(w, calls[0]);
      var next := Perform(w, calls[0]).0;
      if RunCommitsNothing(next, calls[1..]) {
        f, i := FindLastCommit(w, calls[0]);
      } else {
        c, f, i := CommitsOrKeeps(next, calls[1..]);
        c := c + 1;
      }
    }
  }

  /** Durability: after any run, a platform initialized from the bytes of its last
      successful commit is accepted exactly if these are as many as they should
      be, and hands the library exactly the image of that moment. */
  lemma Durability(w: World, calls: seq<Call>, c: nat, f: nat, i: nat, again: Call)
    requires Inv(w) && Run(w, calls).Some? && LastCommitOfRun(w, calls, c, f, i)
    requires var end := Run(w, calls).value;
             && end.platform.None? && Legal(end, again)
             && again.Initialize? && again.kind == PersistentState(end.store.GetOr([]))
    ensures var image := ImageAtCommit(w, calls, c, f, i);
            var (up, r) := Perform(Run(w, calls).value, again);
            && (r == Ok(()) <==> |image| == NvMemory.NV_MEMORY_SIZE)
            && (r == Ok(()) ==>
                  && up.platform.Some?
                  && up.platform.value.nvmem == Served(NvMemory.Nv(image, true), again.tpmInit))
  {
    StoreIsLastCommit(w, calls, c, f, i);
    InitializeFromBlob(Run(w, calls).value, ImageAtCommit(w, calls, c, f, i), again);
  }

  lemma InitializeFromBlob(w: World, image: seq<byte>, call: Call)
    requires Inv(w) && Legal(w, call) && w.platform.None?
    requires call.Initialize? && call.kind == PersistentState(image)
    ensures Perform(w, call).1 == Ok(()) <==> |image| == NvMemory.NV_MEMORY_SIZE
    ensures Perform(w, call).1 == Ok(()) ==>
              && Perform(w, call).0.platform.Some?
              && Perform(w, call).0.platform.value.nvmem == Served(NvMemory.Nv(image, true), call.tpmInit)
  {
    if |image| == NvMemory.NV_MEMORY_SIZE {
      var powered := w.(platform := Some(PowerOn(Prepare(call.kind).0)));
      CallBacksServe(powered, call.tpmInit.callbacks, |call.tpmInit.callbacks|);
    }
  }

  // ---------------------------------------------------------------- restore

  /** A snapshot that this build saved, in whatever process, is never rejected
      for its size or format; its restore fails only when the library's import is
      the snapshot's first failure. The platform half is the snapshot's either
      way, but for the latch. */
  lemma RestoreOfSavedState(w: World, snapshot: Snapshot, backend: Backend)
    requires Inv(w) && Legal(w, RestoreState(snapshot, backend)) && FromThisBuild(snapshot, w.library)
    ensures var (after, r) := Perform(w, RestoreState(snapshot, backend));
            var fails := exists i :: 0 <= i < MAX_LOADED_OBJECTS && Fails(Slots(w.library, snapshot.library)[i], backend, i);
            && (r == Ok(()) || r == Err(Restore(Hooks.FailedRestore(4))))
            && (r.Err? <==> fails && !snapshot.platform.failure.inFailureMode)
            && after.platform == Some(snapshot.platform.(failure :=
                 if fails then Fail(snapshot.platform.failure, backend.location, backend.code)
                 else snapshot.platform.failure))
            && after.handles == w.handles && after.store == w.store
  {
    assert |snapshot.library| % U32_LIMIT == |snapshot.library|;
    RestoreCodes(w.library, snapshot.library, backend, snapshot.platform.failure);
  }

  /** A blob of foreign origin that is rejected leaves a torn restore: the
      library as it was, under the snapshot's platform state. Only the low 32
      bits of the blob's length are compared, and only that many units read. */
  lemma RejectedRestoreIsTorn(w: World, snapshot: Snapshot, backend: Backend)
    requires Inv(w) && w.handles > 0
    ensures var (after, r) := DoRestore(w, snapshot, backend);
            var n := |snapshot.library| % U32_LIMIT;
            && (r == Err(Restore(Hooks.InvalidRestoreSize)) <==> n != RequiredSize(w.library))
            && (r == Err(Restore(Hooks.InvalidRestoreFormat))
                <==> n == RequiredSize(w.library) && snapshot.library[..HEADER_SIZE] != HEADER)
            && (n != RequiredSize(w.library) || snapshot.library[..HEADER_SIZE] != HEADER ==>
                  after == w.(platform := Some(snapshot.platform)))
            && r == DoRestore(w, snapshot.(library := snapshot.library[..n]), backend).1
  {
    var n := |snapshot.library| % U32_LIMIT;
    var prefix := snapshot.library[..n];
    RestoreCodes(w.library, prefix, backend, snapshot.platform.failure);
    if n == RequiredSize(w.library) {
      assert prefix[..HEADER_SIZE] == snapshot.library[..HEADER_SIZE];
      assert prefix[HEADER_SIZE..n] == snapshot.library[HEADER_SIZE..n];
    }
  }

  /** Live migration: what one process saves, another process of the same build
      restores. Its platform becomes the saved one exactly, its NV image included,
      and every running sequence resumes from its own state. */
  lemma Migration(source: World, from: nat, target: World, backend: Backend)
    requires Inv(source) && source.handles > 0 && Inv(target) && target.handles > 0
    requires SameBuild(target.library, source.library.vars) && backend.refused == {}
    requires Resumable(source.library, from)
    requires WellOwned(target.library.vars[OBJECTS], backend.process, target.library.crypto, target.library.nextHandle)
    ensures var restore := RestoreState(SnapshotOf(source), backend);
            && Legal(target, restore)
            && var (after, r) := Perform(target, restore);
            && r == Ok(()) && after.platform == source.platform && after.store == target.store
            && Moved(source.library, from, after.library, backend.process)
  {
    SavedFromThisBuild(source, target.library);
    assert |Blob(source.library)| % U32_LIMIT == |Blob(source.library)|;
    CrossProcessRestore(source.library, from, target.library, backend, source.platform.value.failure);
  }
}
