/** The platform's failure latch: only the first failure is recorded. */
module Failure {
  import opened PlatformMutex

  datatype Failure = Failure(code: nat, location: nat, inFailureMode: bool)

  const NO_FAILURE := Failure(0, 0, false)

  type I32 = x: int | -0x8000_0000 <= x < 0x8000_0000

  /** A failure code is an i32, recorded as u32: negative ones move up by 2^32. */
  function AsU32(code: I32): (r: nat)
    ensures r == if code >= 0 then code else code + 0x1_0000_0000
  {
    code % 0x1_0000_0000
  }

  function Fail(f: Failure, location: nat, code: I32): Failure {
    if f.inFailureMode then f else Failure(AsU32(code), location, true)
  }

  /** The latch as the library reaches it, by callbacks that take the
      platform's mutex: they demand that it is free. */
  class FailureState {
    const mutex: Mutex
    var code: nat
    var location: nat
    var inFailureMode: bool

    function Value(): Failure
      reads this
    {
      Failure(code, location, inFailureMode)
    }

    constructor (f: Failure, mutex: Mutex)
      ensures Value() == f && this.mutex == mutex
    {
      this.mutex := mutex;
      code, location, inFailureMode := f.code, f.location, f.inFailureMode;
    }

    method StartTpmInit()
      requires !mutex.held
      modifies this, mutex
      ensures !mutex.held && Value() == NO_FAILURE
    {
      var acquired := mutex.TryLock();
      assert acquired;
      code, location, inFailureMode := 0, 0, false;
      mutex.Unlock();
    }

    method PlatFail(locationCode: nat, failureCode: I32)
      requires !mutex.held
      modifies this, mutex
      ensures !mutex.held && Value() == Fail(old(Value()), locationCode, failureCode)
      ensures old(inFailureMode) ==> Value() == old(Value())
      ensures !old(inFailureMode) ==>
                && inFailureMode && location == locationCode
                && code == if failureCode >= 0 then failureCode else failureCode + 0x1_0000_0000
    {
      var acquired := mutex.TryLock();
      assert acquired;
      if !inFailureMode {
        code := AsU32(failureCode);
        location := locationCode;
        inFailureMode := true;
      }
      mutex.Unlock();
    }

    method PlatInFailureMode() returns (failing: bool)
      requires !mutex.held
      modifies mutex
      ensures !mutex.held && failing == inFailureMode
    {
      var acquired := mutex.TryLock();
      assert acquired;
      failing := inFailureMode;
      mutex.Unlock();
    }
  }
}
