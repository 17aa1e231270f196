/** The platform singleton and the library behind it: what each call of the
    public interface does, as values. */
module Platform {
  import opened Bytes
  import opened Clock
  import opened Failure
  import opened RuntimeState
  import opened Wrappers
  import ClockRuns
  import Entropy
  import NvMemory
  import Hooks = RuntimeStateHooks

  datatype PlatformState = PlatformState(
    cancel: bool,
    clock: Clock,
    failure: Failure,
    locality: nat,
    nvmem: NvMemory.Nv,
    powerLost: bool,
    entropy: Option<Entropy.Block>)

  function NewState(): PlatformState {
    PlatformState(false, POWER_ON, NO_FAILURE, 0,
                  NvMemory.Nv(Zeros(NvMemory.NV_MEMORY_SIZE), false), false, None)
  }

  datatype Snapshot = Snapshot(library: seq<Unit>, platform: PlatformState)

  /** The process: the singleton, the number of live `MsTpm185Platform` handles,
      the library's globals, and the bytes of the last successful commit. */
  datatype World = World(
    platform: Option<PlatformState>,
    handles: nat,
    library: Library,
    store: Option<seq<byte>>)

  datatype Error =
    | AlreadyInitialized
    | NvMem(error: NvMemory.NvError)
    | Ffi(code: int)
    | InvalidRequestSize
    | Restore(restore: Hooks.RestoreError)

  type Outcome = Result<(), Error>

  // ---------------------------------------------------------------- foreign calls

  /** A call of the library back into the platform. `garbled` is what a timer
      callback makes of a clock that is not sound, as only a snapshot of foreign
      origin can bring: it may be anything. */
  datatype Callback =
    | NvRequest(request: NvMemory.Request)
    | NvCommit(succeeds: bool)
    | StartTpmInit
    | PlatFail(location: nat, code: I32)
    | TimerRead(now: Millis, garbled: Clock)
    | ClockRateAdjust(adjustment: int, garbled: Clock)
    | TimerWasReset
    | TimerWasStopped
    | WasPowerLost
    | GetEntropy(amount: nat, answers: seq<Entropy.Answer>)

  /** What a foreign call does: its callbacks, and the globals it leaves behind. */
  datatype Foreign = Foreign(callbacks: seq<Callback>, library: Library)

  function OnState(p: PlatformState, callback: Callback): PlatformState {
    match callback
    case NvRequest(request) => p.(nvmem := NvMemory.Serve(p.nvmem, request).0)
    case NvCommit(_) => p
    case StartTpmInit => p.(failure := NO_FAILURE)
    case PlatFail(location, code) => p.(failure := Fail(p.failure, location, code))
    case TimerRead(now, garbled) => p.(clock := Ticked(p.clock, ClockRuns.Reading(now), garbled))
    case ClockRateAdjust(adjustment, garbled) => p.(clock := Ticked(p.clock, ClockRuns.RateAdjust(adjustment), garbled))
    case TimerWasReset => p.(clock := p.clock.(timerReset := false))
    case TimerWasStopped => p.(clock := p.clock.(timerStopped := false))
    case WasPowerLost => p.(powerLost := false)
    case GetEntropy(amount, answers) =>
      p.(entropy := Entropy.PreviousAfter(p.entropy, Entropy.Serve(p.entropy, amount, answers)))
  }

  /** A clock after one event. A read that aborts ends the process; here it leaves
      the clock alone, so that runs which go on are described as well. */
  function Ticked(c: Clock, e: ClockRuns.Event, garbled: Clock): Clock {
    if Sound(c) then ClockRuns.Step(c, e).GetOr(c) else garbled
  }

  function OnStore(p: PlatformState, store: Option<seq<byte>>, callback: Callback): Option<seq<byte>> {
    if callback == NvCommit(true) then Some(p.nvmem.region) else store
  }

  function CallBack(w: World, callback: Callback): World
    requires w.platform.Some?
  {
    w.(platform := Some(OnState(w.platform.value, callback)),
       store := OnStore(w.platform.value, w.store, callback))
  }

  function CallBackUpTo(w: World, callbacks: seq<Callback>, n: nat): (r: World)
    requires w.platform.Some? && n <= |callbacks|
    ensures r.platform.Some? && r == w.(platform := r.platform, store := r.store)
    decreases n
  {
    if n == 0 then w else CallBack(CallBackUpTo(w, callbacks, n - 1), callbacks[n - 1])
  }

  function ForeignStep(w: World, foreign: Foreign): (r: World)
    requires w.platform.Some?
    ensures r.platform.Some? && r == w.(platform := r.platform, store := r.store, library := foreign.library)
  {
    CallBackUpTo(w, foreign.callbacks, |foreign.callbacks|).(library := foreign.library)
  }

  // ---------------------------------------------------------------- power

  function PowerOn(p: PlatformState): PlatformState {
    p.(clock := POWER_ON, powerLost := true, nvmem := NvMemory.Enabled(p.nvmem))
  }

  function PowerOff(p: PlatformState): PlatformState {
    p.(nvmem := p.nvmem.(isInit := false))
  }

  // ---------------------------------------------------------------- the interface

  datatype InitKind = ColdInit | ColdInitWithSize(size: nat) | PersistentState(blob: seq<byte>)

  /** The platform that an initialization starts from, before power-on. */
  function Prepare(kind: InitKind): (PlatformState, NvMemory.NvResult) {
    var newState := NewState();
    match kind
    case ColdInit => (newState.(nvmem := NvMemory.Enabled(newState.nvmem)), Ok(()))
    case ColdInitWithSize(size) =>
      (newState.(nvmem := NvMemory.Enabled(newState.nvmem)), NvMemory.ValidateNvSize(size))
    case PersistentState(blob) =>
      var (nvmem, r) := NvMemory.EnableFromBlob(newState.nvmem, blob);
      (newState.(nvmem := nvmem), r)
  }

  datatype Call =
    | Initialize(kind: InitKind, manufacture: Foreign, manufactureCode: int, tpmInit: Foreign)
    | Reset(nvmemBlob: Option<seq<byte>>, tpmInit: Foreign)
    | ExecuteCommand(request: seq<byte>, command: Foreign)
    | SaveState
    | RestoreState(snapshot: Snapshot, backend: Backend)
    | SetCancelFlag(enabled: bool)
    | SetLocality(locality: nat)
    | Drop

  function DoInitialize(w: World, kind: InitKind, manufacture: Foreign, manufactureCode: int,
                        tpmInit: Foreign): (World, Outcome)
  {
    if w.platform.Some? then (w, Err(AlreadyInitialized))
    else if Prepare(kind).1.Err? then (w, Err(NvMem(Prepare(kind).1.error)))
    else
      var powered := w.(platform := Some(PowerOn(Prepare(kind).0)));
      var made := if kind.PersistentState? then powered else ForeignStep(powered, manufacture);
      if !kind.PersistentState? && manufactureCode != 0 then (made, Err(Ffi(manufactureCode)))
      else
        var up := ForeignStep(made, tpmInit);
        (up.(handles := up.handles + 1), Ok(()))
  }

  function DoReset(w: World, nvmemBlob: Option<seq<byte>>, tpmInit: Foreign): (World, Outcome)
    requires w.platform.Some?
  {
    var off := PowerOff(w.platform.value);
    var (nvmem, r) :=
      match nvmemBlob
      case Some(blob) => NvMemory.EnableFromBlob(off.nvmem, blob)
      case None => (off.nvmem.(isInit := true), Ok(()));
    if r.Err? then (w.(platform := Some(off)), Err(NvMem(r.error)))
    else (ForeignStep(w.(platform := Some(PowerOn(off.(nvmem := nvmem)))), tpmInit), Ok(()))
  }

  function BigEndian32(b: seq<byte>): nat
    requires |b| == 4
  {
    (b[0] as int) * 0x100_0000 + (b[1] as int) * 0x1_0000 + (b[2] as int) * 0x100 + b[3] as int
  }

  /** The length of the request that is passed on is the one its header gives,
      and never more than the caller's buffer holds, although only the low 32
      bits of the buffer's length are compared with it. */
  function RequestLength(request: seq<byte>): (r: Option<nat>)
    ensures r.None? <==> |request| < 6 || BigEndian32(request[2..6]) > |request| % U32_LIMIT
    ensures r.Some? ==> r.value == BigEndian32(request[2..6]) <= |request|
  {
    if |request| < 6 then None
    else
      var header := BigEndian32(request[2..6]);
      if header > |request| % U32_LIMIT then None
      else Some(if |request| < header then |request| else header)
  }

  function DoExecute(w: World, request: seq<byte>, command: Foreign): (World, Outcome)
    requires w.platform.Some?
  {
    if RequestLength(request).None? then (w, Err(InvalidRequestSize)) else (ForeignStep(w, command), Ok(()))
  }

  /** What a save hands out; the process itself does not change. */
  function SnapshotOf(w: World): Snapshot
    requires w.platform.Some? && Shaped(w.library)
  {
    Snapshot(Blob(w.library), w.platform.value)
  }

  /** The platform half is replaced first: the library's half is applied under
      the snapshot's failure latch, and if it is rejected the platform stays replaced. */
  function DoRestore(w: World, snapshot: Snapshot, backend: Backend): (World, Outcome)
    requires w.platform.Some? && Shaped(w.library)
  {
    var applied := Apply(w.library, snapshot.library, |snapshot.library| % U32_LIMIT, backend,
                         snapshot.platform.failure);
    (w.(platform := Some(snapshot.platform.(failure := applied.failure)), library := applied.library),
     match Hooks.ResultOf(applied.code)
     case Ok(()) => Ok(())
     case Err(error) => Err(Restore(error)))
  }

  function DoDrop(w: World): (World, Outcome)
    requires w.handles > 0
  {
    (w.(platform := None, handles := w.handles - 1), Ok(()))
  }

  // ---------------------------------------------------------------- runs

  /** The build fixes the table: every state of the globals has the same sizes. */
  predicate SameBuild(l: Library, vars: seq<seq<Unit>>) {
    Shaped(l) && SameSizes(l.vars, vars)
  }

  /** Methods of a handle can only be called while one is live. A snapshot to
      restore can be anything. */
  predicate Legal(w: World, call: Call)
    requires Shaped(w.library)
  {
    match call
    case Initialize(_, manufacture, _, tpmInit) =>
      SameBuild(manufacture.library, w.library.vars) && SameBuild(tpmInit.library, w.library.vars)
    case Reset(_, tpmInit) => w.handles > 0 && SameBuild(tpmInit.library, w.library.vars)
    case ExecuteCommand(_, command) => w.handles > 0 && SameBuild(command.library, w.library.vars)
    case SaveState => w.handles > 0
    case RestoreState(_, _) => w.handles > 0
    case SetCancelFlag(_) => w.handles > 0
    case SetLocality(_) => w.handles > 0
    case Drop => w.handles > 0
  }

  /** What holds between calls: there is at most one handle, and a live handle
      means an initialized platform. */
  predicate Inv(w: World) {
    && Shaped(w.library)
    && w.handles <= 1 && (w.handles == 1 ==> w.platform.Some?)
  }

  /** The library's half of a snapshot that this build saved, in this process or another. */
  predicate FromThisBuild(snapshot: Snapshot, l: Library)
    requires Shaped(l)
  {
    |snapshot.library| == RequiredSize(l) && snapshot.library[..HEADER_SIZE] == HEADER
  }

  function Perform(w: World, call: Call): (World, Outcome)
    requires Inv(w) && Legal(w, call)
  {
    match call
    case Initialize(kind, manufacture, code, tpmInit) => DoInitialize(w, kind, manufacture, code, tpmInit)
    case Reset(blob, tpmInit) => DoReset(w, blob, tpmInit)
    case ExecuteCommand(request, command) => DoExecute(w, request, command)
    case SaveState => (w, Ok(()))
    case RestoreState(snapshot, backend) => DoRestore(w, snapshot, backend)
    case SetCancelFlag(enabled) => (w.(platform := Some(w.platform.value.(cancel := enabled))), Ok(()))
    case SetLocality(locality) => (w.(platform := Some(w.platform.value.(locality := locality))), Ok(()))
    case Drop => DoDrop(w)
  }

  /** The world after a run, if every call of it was legal where it was made. */
  function Run(w: World, calls: seq<Call>): (r: Option<World>)
    requires Inv(w)
    ensures r.Some? ==> Inv(r.value) && SameSizes(r.value.library.vars, w.library.vars)
    decreases |calls|
  {
    if calls == [] then Some(w)
    else if !Legal(w, calls[0]) then None
    else
      PerformKeepsInv(w, calls[0]);
      Run(Perform(w, calls[0]).0, calls[1..])
  }

  lemma ForeignKeepsInv(w: World, foreign: Foreign)
    requires Inv(w) && w.platform.Some? && SameBuild(foreign.library, w.library.vars)
    ensures Inv(ForeignStep(w, foreign)) && SameSizes(ForeignStep(w, foreign).library.vars, w.library.vars)
  {
    SameRequiredSize(foreign.library, w.library);
  }

  lemma SameRequiredSize(a: Library, b: Library)
    requires SameSizes(a.vars, b.vars)
    ensures RequiredSize(a) == RequiredSize(b)
  {
    OffsetsAgree(a.vars, b.vars, |a.vars|);
    assert a.vars[..|a.vars|] == a.vars && b.vars[..|b.vars|] == b.vars;
  }

  lemma ApplyKeepsSizes(l: Library, blob: seq<Unit>, size: nat, backend: Backend, failure: Failure)
    requires Shaped(l) && size <= |blob|
    ensures var after := Apply(l, blob, size, backend, failure).library;
            SameSizes(after.vars, l.vars) && Shaped(after)
  {
    SameRequiredSize(Apply(l, blob, size, backend, failure).library, l);
  }

  /** Every call keeps the singleton invariant, a restore of any snapshot included. */
  lemma PerformKeepsInv(w: World, call: Call)
    requires Inv(w) && Legal(w, call)
    ensures Inv(Perform(w, call).0)
    ensures SameSizes(Perform(w, call).0.library.vars, w.library.vars)
  {
    match call {
      case Initialize(kind, manufacture, code, tpmInit) =>
        InitializeKeepsInv(w, kind, manufacture, code, tpmInit);
      case Reset(blob, tpmInit) =>
        ResetKeepsInv(w, blob, tpmInit);
      case ExecuteCommand(request, command) =>
        ForeignKeepsInv(w, command);
      case RestoreState(snapshot, backend) =>
        ApplyKeepsSizes(w.library, snapshot.library, |snapshot.library| % U32_LIMIT, backend, snapshot.platform.failure);
      case _ =>
    }
  }

  /** A snapshot can be restored wherever the same build runs. */
  lemma SavedFromThisBuild(w: World, l: Library)
    requires Inv(w) && w.platform.Some? && SameBuild(l, w.library.vars)
    ensures FromThisBuild(SnapshotOf(w), l)
  {
    SameRequiredSize(l, w.library);
    assert Blob(w.library)[..HEADER_SIZE] == HEADER;
  }

  lemma InitializeKeepsInv(w: World, kind: InitKind, manufacture: Foreign, code: int, tpmInit: Foreign)
    requires Inv(w) && Legal(w, Initialize(kind, manufacture, code, tpmInit))
    ensures var after := DoInitialize(w, kind, manufacture, code, tpmInit).0;
            Inv(after) && SameSizes(after.library.vars, w.library.vars)
  {
    if w.platform.None? && Prepare(kind).1.Ok? {
      var powered := w.(platform := Some(PowerOn(Prepare(kind).0)));
      if kind.PersistentState? {
        ForeignKeepsInv(powered, tpmInit);
      } else {
        ForeignKeepsInv(powered, manufacture);
        if code == 0 {
          ForeignKeepsInv(ForeignStep(powered, manufacture), tpmInit);
        }
      }
    }
  }

  lemma ResetKeepsInv(w: World, blob: Option<seq<byte>>, tpmInit: Foreign)
    requires Inv(w) && Legal(w, Reset(blob, tpmInit))
    ensures var after := DoReset(w, blob, tpmInit).0;
            Inv(after) && SameSizes(after.library.vars, w.library.vars)
  {
    var off := PowerOff(w.platform.value);
    var nvmem := if blob.Some? then NvMemory.EnableFromBlob(off.nvmem, blob.value).0 else off.nvmem.(isInit := true);
    if blob.None? || NvMemory.EnableFromBlob(off.nvmem, blob.value).1.Ok? {
      ForeignKeepsInv(w.(platform := Some(PowerOn(off.(nvmem := nvmem)))), tpmInit);
    }
  }
}
