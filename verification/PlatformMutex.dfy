/** The mutex around the platform singleton. It is only ever tried, never waited for. */
module PlatformMutex {

  class Mutex {
    var held: bool

    constructor ()
      ensures !held
    {
      held := false;
    }

    method TryLock() returns (acquired: bool)
      modifies this
      ensures acquired == !old(held) && held
    {
      acquired := !held;
      held := true;
    }

    method Unlock()
      requires held
      modifies this
      ensures !held
    {
      held := false;
    }
  }
}
