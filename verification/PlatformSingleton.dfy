/** The singleton behind its mutex. Every foreign call demands that the mutex is
    free, so that the library's callbacks can take it; the methods' proofs show
    that it is, at every such call, and that no `unwrap` fails. */
module PlatformSingleton {
  import opened Bytes
  import opened Clock
  import opened Failure
  import opened RuntimeState
  import opened Platform
  import opened PlatformMutex
  import opened Wrappers
  import NvMemory
  import Hooks = RuntimeStateHooks

  class Singleton {
    /** PLATFORM: the mutex, and what it guards. */
    const mutex: Mutex
    var platform: Option<PlatformState>

    /** The handles held by the caller, and the state outside this crate. */
    var handles: nat
    var library: Library
    var store: Option<seq<byte>>

    function Value(): World
      reads this
    {
      World(platform, handles, library, store)
    }

    constructor (l: Library)
      requires Shaped(l)
      ensures Value() == World(None, 0, l, None) && Inv(Value()) && fresh(mutex) && !mutex.held
    {
      mutex := new Mutex();
      platform, handles := None, 0;
      library, store := l, None;
    }

    // -------------------------------------------------------------- foreign calls

    /** The library calls back: `platform!()` takes the mutex without waiting and
        unwraps the singleton. */
    method PlatformCallback(callback: Callback)
      requires !mutex.held && platform.Some?
      modifies mutex, this`platform, this`store
      ensures !mutex.held && Value() == CallBack(old(Value()), callback)
    {
      var acquired := mutex.TryLock();
      assert acquired;
      var impl := platform.value;
      if callback == NvCommit(true) {
        store := Some(impl.nvmem.region);
      }
      platform := Some(OnState(impl, callback));
      mutex.Unlock();
    }

    method ForeignCall(foreign: Foreign)
      requires !mutex.held && platform.Some?
      modifies mutex, this`platform, this`store, this`library
      ensures !mutex.held && Value() == ForeignStep(old(Value()), foreign)
    {
      for i := 0 to |foreign.callbacks|
        invariant !mutex.held && Value() == CallBackUpTo(old(Value()), foreign.callbacks, i)
      {
        PlatformCallback(foreign.callbacks[i]);
      }
      library := foreign.library;
    }

    /** The library's restore hook, reporting failures through the platform's latch. */
    method ForeignApply(blob: seq<Unit>, backend: Backend) returns (r: Hooks.RestoreResult)
      requires !mutex.held && platform.Some? && Shaped(library)
      modifies this`platform, this`library, mutex
      ensures !mutex.held
      ensures var applied := Apply(old(library), blob, |blob| % U32_LIMIT, backend, old(platform).value.failure);
              && library == applied.library && r == Hooks.ResultOf(applied.code)
              && platform == Some(old(platform).value.(failure := applied.failure))
    {
      var globals := new Hooks.LibraryState(library);
      var latch := new FailureState(platform.value.failure, mutex);
      r := globals.RestoreLibraryState(blob, backend, latch);
      library := globals.Value();
      platform := Some(platform.value.(failure := latch.Value()));
    }

    /** The library's save hook. */
    method ForeignGet() returns (blob: seq<Unit>)
      requires !mutex.held && Shaped(library)
      ensures blob == Blob(library)
    {
      var globals := new Hooks.LibraryState(library);
      blob := globals.GetLibraryState();
    }

    // -------------------------------------------------------------- the interface

    /** A held mutex or a live singleton both read as already initialized. */
    method Initialize(kind: InitKind, manufacture: Foreign, manufactureCode: int, tpmInit: Foreign)
      returns (r: Outcome)
      modifies this, mutex
      ensures old(mutex.held) ==> r == Err(AlreadyInitialized) && mutex.held && Value() == old(Value())
      ensures !old(mutex.held) ==>
                !mutex.held && (Value(), r) == DoInitialize(old(Value()), kind, manufacture, manufactureCode, tpmInit)
    {
      var acquired := mutex.TryLock();
      if !acquired {
        return Err(AlreadyInitialized);
      }
      if platform.Some? {
        mutex.Unlock();
        return Err(AlreadyInitialized);
      }
      var (newPlatform, valid) := Prepare(kind);
      if valid.Err? {
        mutex.Unlock();
        return Err(NvMem(valid.error));
      }
      platform := Some(newPlatform);
      SignalPowerOn();
      mutex.Unlock();
      if kind.ColdInit? || kind.ColdInitWithSize? {
        ForeignCall(manufacture);
        if manufactureCode != 0 {
          return Err(Ffi(manufactureCode));
        }
      }
      ForeignCall(tpmInit);
      handles := handles + 1;
      return Ok(());
    }

    method SignalPowerOn()
      requires mutex.held && platform.Some?
      modifies this`platform
      ensures platform == Some(PowerOn(old(platform).value))
    {
      var impl := platform.value;
      impl := impl.(clock := POWER_ON);
      impl := impl.(powerLost := true);
      impl := impl.(nvmem := NvMemory.Enabled(impl.nvmem));
      platform := Some(impl);
    }

    method Reset(nvmemBlob: Option<seq<byte>>, tpmInit: Foreign) returns (r: Outcome)
      requires !mutex.held && Inv(Value()) && handles > 0
      modifies this, mutex
      ensures !mutex.held && (Value(), r) == DoReset(old(Value()), nvmemBlob, tpmInit)
    {
      var acquired := mutex.TryLock();
      assert acquired && platform.Some?;
      platform := Some(PowerOff(platform.value));
      if nvmemBlob.Some? {
        var (nvmem, enabled) := NvMemory.EnableFromBlob(platform.value.nvmem, nvmemBlob.value);
        if enabled.Err? {
          mutex.Unlock();
          return Err(NvMem(enabled.error));
        }
        platform := Some(platform.value.(nvmem := nvmem));
      } else {
        platform := Some(platform.value.(nvmem := platform.value.nvmem.(isInit := true)));
      }
      SignalPowerOn();
      mutex.Unlock();
      ForeignCall(tpmInit);
      return Ok(());
    }

    method ExecuteCommand(request: seq<byte>, command: Foreign) returns (r: Outcome)
      requires !mutex.held && Inv(Value()) && handles > 0
      modifies this, mutex
      ensures !mutex.held && (Value(), r) == DoExecute(old(Value()), request, command)
    {
      if RequestLength(request).None? {
        return Err(InvalidRequestSize);
      }
      ForeignCall(command);
      return Ok(());
    }

    /** The library's half is read, with the mutex free, before it is taken for
        the platform's. Saving changes nothing. */
    method SaveState() returns (snapshot: Snapshot)
      requires !mutex.held && Inv(Value()) && handles > 0
      modifies mutex
      ensures !mutex.held && snapshot == SnapshotOf(Value())
    {
      var libraryState := ForeignGet();
      var acquired := mutex.TryLock();
      assert acquired && platform.Some?;
      var platformState := platform.value;
      mutex.Unlock();
      return Snapshot(libraryState, platformState);
    }

    method RestoreState(snapshot: Snapshot, backend: Backend) returns (r: Outcome)
      requires !mutex.held && Inv(Value()) && handles > 0
      modifies this, mutex
      ensures !mutex.held && (Value(), r) == DoRestore(old(Value()), snapshot, backend)
    {
      var acquired := mutex.TryLock();
      assert acquired && platform.Some?;
      platform := Some(snapshot.platform);
      mutex.Unlock();
      var restored := ForeignApply(snapshot.library, backend);
      match restored {
        case Ok(_) => return Ok(());
        case Err(error) => return Err(Restore(error));
      }
    }

    method SetCancelFlag(enabled: bool)
      requires !mutex.held && Inv(Value()) && handles > 0
      modifies mutex, this`platform
      ensures !mutex.held && Value() == Perform(old(Value()), Call.SetCancelFlag(enabled)).0
    {
      var acquired := mutex.TryLock();
      assert acquired && platform.Some?;
      platform := Some(platform.value.(cancel := enabled));
      mutex.Unlock();
    }

    method SetLocality(locality: nat)
      requires !mutex.held && Inv(Value()) && handles > 0
      modifies mutex, this`platform
      ensures !mutex.held && Value() == Perform(old(Value()), Call.SetLocality(locality)).0
    {
      var acquired := mutex.TryLock();
      assert acquired && platform.Some?;
      platform := Some(platform.value.(locality := locality));
      mutex.Unlock();
    }

    method Drop() returns (r: Outcome)
      requires !mutex.held && Inv(Value()) && handles > 0
      modifies this, mutex
      ensures !mutex.held && (Value(), r) == DoDrop(old(Value()))
    {
      var acquired := mutex.TryLock();
      assert acquired && platform.Some?;
      platform := Some(PowerOff(platform.value));
      platform := None;
      mutex.Unlock();
      handles := handles - 1;
      return Ok(());
    }
  }
}
