/** The platform's NV region: byte-range operations that either act on exactly
    their range or leave the region alone. */
module NvMemory {

  import opened Bytes
  import opened Wrappers

  const NV_MEMORY_SIZE: nat := 128 * 1024

  datatype NvError =
    | AlreadyInitialized
    | MismatchedBlobSize(expected: nat, actual: nat)
    | InvalidAccess(startOffset: nat, len: nat)

  type NvResult = Result<(), NvError>

  datatype Nv = Nv(region: seq<byte>, isInit: bool)

  /** Requests that change the region, as the TPM library issues them. */
  datatype Request =
    | Write(start: nat, data: seq<byte>)
    | Clear(start: nat, size: nat)
    | Move(source: nat, dest: nat, size: nat)
    | Enable

  function ValidateNvSize(size: nat): NvResult {
    if size != NV_MEMORY_SIZE then Err(MismatchedBlobSize(NV_MEMORY_SIZE, size)) else Ok(())
  }

  function EnableFromBlob(nv: Nv, blob: seq<byte>): (Nv, NvResult) {
    if nv.isInit then (nv, Err(AlreadyInitialized))
    else if ValidateNvSize(|blob|).Err? then (nv, ValidateNvSize(|blob|))
    else (Nv(blob, true), Ok(()))
  }

  /** Enabling zeroes a region that is not in use and never one that is. */
  function Enabled(nv: Nv): Nv {
    if nv.isInit then nv else Nv(Zeros(NV_MEMORY_SIZE), true)
  }

  function Serve(nv: Nv, request: Request): (Nv, NvResult) {
    match request
    case Write(start, data) =>
      if start + |data| > |nv.region| then (nv, Err(InvalidAccess(start, |data|)))
      else (nv.(region := Overlay(nv.region, start, data)), Ok(()))
    case Clear(start, size) =>
      if start + size > |nv.region| then (nv, Err(InvalidAccess(start, size)))
      else (nv.(region := Overlay(nv.region, start, Zeros(size))), Ok(()))
    case Move(source, dest, size) =>
      if source + size > |nv.region| then (nv, Err(InvalidAccess(source, size)))
      else if dest + size > |nv.region| then (nv, Err(InvalidAccess(dest, size)))
      else (nv.(region := Overlay(nv.region, dest, nv.region[source..source + size])), Ok(()))
    case Enable => (Enabled(nv), Ok(()))
  }

  function ServeAll(nv: Nv, requests: seq<Request>): Nv
    decreases |requests|
  {
    if requests == [] then nv else ServeAll(Serve(nv, requests[0]).0, requests[1..])
  }

  // ---------------------------------------------------------------- laws

  lemma {:induction false} ServeAllOfConcat(nv: Nv, a: seq<Request>, b: seq<Request>)
    ensures ServeAll(nv, a + b) == ServeAll(ServeAll(nv, a), b)
    decreases |a|
  {
    if a == [] {
      assert a + b == b;
    } else {
      assert (a + b)[1..] == a[1..] + b;
      ServeAllOfConcat(Serve(nv, a[0]).0, a[1..], b);
    }
  }

  /** A region in use keeps its length, and stays in use, over every run of
      requests; so does the length of one that is as long as it should be. */
  lemma {:induction false} LengthKept(nv: Nv, requests: seq<Request>)
    ensures nv.isInit || |nv.region| == NV_MEMORY_SIZE ==> |ServeAll(nv, requests).region| == |nv.region|
    ensures nv.isInit ==> ServeAll(nv, requests).isInit
    decreases |requests|
  {
    if requests != [] {
      LengthKept(Serve(nv, requests[0]).0, requests[1..]);
    }
  }

  /** Whether a request stays within a region of `n` bytes. */
  predicate InRange(request: Request, n: nat) {
    match request
    case Write(start, data) => start + |data| <= n
    case Clear(start, size) => start + size <= n
    case Move(source, dest, size) => source + size <= n && dest + size <= n
    case Enable => true
  }

  function Accepted(requests: seq<Request>, n: nat): seq<Request>
    decreases |requests|
  {
    if requests == [] then []
    else (if InRange(requests[0], n) then [requests[0]] else []) + Accepted(requests[1..], n)
  }

  /** Requests fail exactly when a range leaves the region, whatever was served
      before, and failed ones might as well not have been made. */
  lemma {:induction false} FailedRequestsDropOut(nv: Nv, requests: seq<Request>)
    requires |nv.region| == NV_MEMORY_SIZE
    ensures ServeAll(nv, requests) == ServeAll(nv, Accepted(requests, |nv.region|))
    ensures requests != [] ==>
              (Serve(ServeAll(nv, requests[..|requests| - 1]), requests[|requests| - 1]).1.Err?
               <==> !InRange(requests[|requests| - 1], |nv.region|))
    decreases |requests|
  {
    if requests != [] {
      var first, rest := requests[0], requests[1..];
      var next := Serve(nv, first).0;
      FailedRequestsDropOut(next, rest);
      if InRange(first, |nv.region|) {
        assert ([first] + Accepted(rest, |nv.region|))[1..] == Accepted(rest, |nv.region|);
      } else {
        assert next == nv;
        assert [] + Accepted(rest, |nv.region|) == Accepted(rest, |nv.region|);
      }
      LengthKept(nv, requests[..|requests| - 1]);
    }
  }

  // ---------------------------------------------------------------- an image out of use

  /** Where a byte of a served region comes from: a request, or the image that
      serving started with. */
  datatype Origin = Fixed(b: byte) | From(index: nat)

  /** The origins of a region's bytes after one more request. */
  function Trace(origins: seq<Origin>, request: Request): (r: seq<Origin>)
    ensures |r| == |origins|
  {
    if !InRange(request, |origins|) then origins
    else
      match request
      case Write(start, data) =>
        Overlay(origins, start, seq(|data|, i requires 0 <= i < |data| => Fixed(data[i])))
      case Clear(start, size) => Overlay(origins, start, seq(size, _ => Fixed(0)))
      case Move(source, dest, size) => Overlay(origins, dest, origins[source..source + size])
      case Enable => origins
  }

  function TraceAll(origins: seq<Origin>, requests: seq<Request>): (r: seq<Origin>)
    ensures |r| == |origins|
    decreases |requests|
  {
    if requests == [] then origins else TraceAll(Trace(origins, requests[0]), requests[1..])
  }

  function Untouched(n: nat): seq<Origin> {
    seq(n, j requires 0 <= j < n => From(j))
  }

  predicate Within(origins: seq<Origin>, n: nat) {
    forall j :: 0 <= j < |origins| ==> origins[j].From? ==> origins[j].index < n
  }

  function Eval(image: seq<byte>, origins: seq<Origin>): seq<byte>
    requires Within(origins, |image|)
  {
    seq(|origins|, j requires 0 <= j < |origins| =>
      match origins[j]
      case Fixed(b) => b
      case From(index) => image[index])
  }

  /** Byte `j` of a region after one more request. */
  function ByteAfter(region: seq<byte>, request: Request, j: nat): byte
    requires j < |region|
  {
    if !InRange(request, |region|) then region[j]
    else
      match request
      case Write(start, data) => if start <= j < start + |data| then data[j - start] else region[j]
      case Clear(start, size) => if start <= j < start + size then 0 else region[j]
      case Move(source, dest, size) =>
        if dest <= j < dest + size then region[source + (j - dest)] else region[j]
      case Enable => region[j]
  }

  lemma ServeAt(nv: Nv, request: Request, j: nat)
    requires j < |nv.region| && (nv.isInit || request != Enable)
    ensures |Serve(nv, request).0.region| == |nv.region| && Serve(nv, request).0.isInit == nv.isInit
    ensures Serve(nv, request).0.region[j] == ByteAfter(nv.region, request, j)
  {
  }

  lemma TraceAt(origins: seq<Origin>, request: Request, j: nat)
    requires j < |origins|
    ensures Trace(origins, request)[j] ==
            if !InRange(request, |origins|) then origins[j]
            else match request
                 case Write(start, data) => if start <= j < start + |data| then Fixed(data[j - start]) else origins[j]
                 case Clear(start, size) => if start <= j < start + size then Fixed(0) else origins[j]
                 case Move(source, dest, size) =>
                   if dest <= j < dest + size then origins[source + (j - dest)] else origins[j]
                 case Enable => origins[j]
  {
  }

  /** A region in use is served as its origins say. */
  lemma ServeTraced(image: seq<byte>, origins: seq<Origin>, request: Request)
    requires Within(origins, |image|)
    ensures Within(Trace(origins, request), |image|)
    ensures Serve(Nv(Eval(image, origins), true), request).0 == Nv(Eval(image, Trace(origins, request)), true)
  {
    var nv, traced := Nv(Eval(image, origins), true), Trace(origins, request);
    forall j | 0 <= j < |traced|
      ensures traced[j].From? ==> traced[j].index < |image|
    {
      TraceAt(origins, request, j);
    }
    var served, evaled := Serve(nv, request).0.region, Eval(image, traced);
    assert |served| == |evaled|;
    forall j | 0 <= j < |evaled|
      ensures served[j] == evaled[j]
    {
      ServeAt(nv, request, j);
      TraceAt(origins, request, j);
    }
  }

  lemma {:induction false} ServeAllTraced(image: seq<byte>, origins: seq<Origin>, requests: seq<Request>)
    requires Within(origins, |image|)
    ensures Within(TraceAll(origins, requests), |image|)
    ensures ServeAll(Nv(Eval(image, origins), true), requests) == Nv(Eval(image, TraceAll(origins, requests)), true)
    decreases |requests|
  {
    if requests != [] {
      ServeTraced(image, origins, requests[0]);
      ServeAllTraced(image, Trace(origins, requests[0]), requests[1..]);
    }
  }

  lemma ServedFromImage(image: seq<byte>, requests: seq<Request>)
    ensures var origins := TraceAll(Untouched(|image|), requests);
            && Within(origins, |image|)
            && ServeAll(Nv(image, true), requests).region == Eval(image, origins)
  {
    assert Eval(image, Untouched(|image|)) == image;
    ServeAllTraced(image, Untouched(|image|), requests);
  }

  /** What happens to a region over time: the library's requests, and power-off,
      which takes it out of use. */
  datatype Event = Made(request: Request) | PoweredOff

  function Happen(nv: Nv, event: Event): Nv {
    match event
    case Made(request) => Serve(nv, request).0
    case PoweredOff => nv.(isInit := false)
  }

  function HappenAll(nv: Nv, events: seq<Event>): Nv
    decreases |events|
  {
    if events == [] then nv else HappenAll(Happen(nv, events[0]), events[1..])
  }

  /** The requests among the events. */
  function RequestsIn(events: seq<Event>): seq<Request>
    decreases |events|
  {
    if events == [] then []
    else (if events[0].Made? then [events[0].request] else []) + RequestsIn(events[1..])
  }

  function AllMade(requests: seq<Request>): seq<Event>
    decreases |requests|
  {
    if requests == [] then [] else [Made(requests[0])] + AllMade(requests[1..])
  }

  /** Whether an enabling among the events finds the region out of use, and so zeroes it. */
  predicate Zeroes(inUse: bool, events: seq<Event>)
    decreases |events|
  {
    if events == [] then false
    else
      match events[0]
      case PoweredOff => Zeroes(false, events[1..])
      case Made(request) => (request == Enable && !inUse) || Zeroes(inUse, events[1..])
  }

  /** No byte of the image that is still there is anything but zero. */
  predicate ZeroWhereKept(image: seq<byte>, origins: seq<Origin>) {
    forall j :: 0 <= j < |origins| ==> origins[j].From? && origins[j].index < |image| ==> image[origins[j].index] == 0
  }

  /** Whether a region that goes through these events, `inUse` or not at first,
      ends up with the bytes of one that is never powered off, `spared`. It is
      the last enabling that zeroes it that counts: then every byte of the spared
      image must be zero or overwritten later. */
  predicate NothingLost(spared: Nv, inUse: bool, events: seq<Event>)
    decreases |events|
  {
    if events == [] then true
    else
      match events[0]
      case PoweredOff => NothingLost(spared, false, events[1..])
      case Made(request) =>
        if request == Enable && !inUse && spared.isInit && !Zeroes(true, events[1..]) then
          && |spared.region| == NV_MEMORY_SIZE
          && ZeroWhereKept(spared.region, TraceAll(Untouched(|spared.region|), RequestsIn(events[1..])))
        else NothingLost(Serve(spared, request).0, inUse || request == Enable, events[1..])
  }

  /** Until an enabling zeroes the region, being out of use makes no difference to its bytes. */
  lemma {:induction false} UseDoesNotMatter(region: seq<byte>, inUse: bool, events: seq<Event>)
    requires !Zeroes(inUse, events)
    ensures HappenAll(Nv(region, inUse), events).region == ServeAll(Nv(region, true), RequestsIn(events)).region
    decreases |events|
  {
    if events != [] {
      var rest := events[1..];
      if events[0].PoweredOff? {
        assert RequestsIn(events) == RequestsIn(rest);
        UseDoesNotMatter(region, false, rest);
      } else {
        assert RequestsIn(events)[0] == events[0].request && RequestsIn(events)[1..] == RequestsIn(rest);
        var next := Serve(Nv(region, true), events[0].request).0;
        assert Serve(Nv(region, inUse), events[0].request).0 == Nv(next.region, inUse);
        UseDoesNotMatter(next.region, inUse, rest);
      }
    }
  }

  /** The bytes of a region that is powered off now and then differ from those of
      one that is not exactly when something was lost. */
  lemma {:induction false} OutOfUse(spared: Nv, region: seq<byte>, inUse: bool, events: seq<Event>)
    requires inUse ==> spared.isInit
    requires region == spared.region || (spared.isInit && Zeroes(inUse, events))
    ensures HappenAll(Nv(region, inUse), events).region == ServeAll(spared, RequestsIn(events)).region
            <==> NothingLost(spared, inUse, events)
    decreases |events|
  {
    if events != [] {
      var rest := events[1..];
      if events[0].PoweredOff? {
        assert RequestsIn(events) == RequestsIn(rest);
        OutOfUse(spared, region, false, rest);
      } else {
        var request := events[0].request;
        assert RequestsIn(events)[0] == request && RequestsIn(events)[1..] == RequestsIn(rest);
        var next := Serve(spared, request).0;
        if request == Enable && !inUse && spared.isInit && !Zeroes(true, rest) {
          ZeroedForGood(spared.region, rest);
        } else {
          OutOfUse(next, Serve(Nv(region, inUse), request).0.region, inUse || request == Enable, rest);
        }
      }
    }
  }

  /** From the last enabling that zeroes it, a region is served from zeros. */
  lemma ZeroedForGood(image: seq<byte>, later: seq<Event>)
    requires !Zeroes(true, later)
    ensures HappenAll(Nv(Zeros(NV_MEMORY_SIZE), true), later).region
            == ServeAll(Nv(image, true), RequestsIn(later)).region
            <==> && |image| == NV_MEMORY_SIZE
                 && ZeroWhereKept(image, TraceAll(Untouched(|image|), RequestsIn(later)))
  {
    var zeros := Zeros(NV_MEMORY_SIZE);
    UseDoesNotMatter(zeros, true, later);
    ServedFromImage(image, RequestsIn(later));
    ServedFromImage(zeros, RequestsIn(later));
    if |image| == NV_MEMORY_SIZE {
      EvalsAgree(image, zeros, TraceAll(Untouched(|image|), RequestsIn(later)));
    }
  }

  lemma EvalsAgree(image: seq<byte>, zeros: seq<byte>, origins: seq<Origin>)
    requires |image| == |zeros| && Within(origins, |image|)
    requires forall i :: 0 <= i < |zeros| ==> zeros[i] == 0
    ensures Eval(zeros, origins) == Eval(image, origins) <==> ZeroWhereKept(image, origins)
  {
    if Eval(zeros, origins) == Eval(image, origins) {
      forall j | 0 <= j < |origins| && origins[j].From?
        ensures image[origins[j].index] == 0
      {
        assert Eval(zeros, origins)[j] == Eval(image, origins)[j];
      }
    }
  }

  /** Without an enabling that zeroes nothing is lost. */
  lemma {:induction false} NeverZeroed(spared: Nv, inUse: bool, events: seq<Event>)
    requires (inUse ==> spared.isInit) && !Zeroes(inUse, events)
    ensures NothingLost(spared, inUse, events)
    decreases |events|
  {
    if events != [] {
      if events[0].PoweredOff? {
        NeverZeroed(spared, false, events[1..]);
      } else {
        NeverZeroed(Serve(spared, events[0].request).0, inUse, events[1..]);
      }
    }
  }

  /** With one, it is the spared image at the last of them that counts. */
  lemma {:induction false} LostAtLastZeroing(spared: Nv, inUse: bool, before: seq<Event>, later: seq<Event>)
    requires spared.isInit && !HappenAll(Nv(spared.region, inUse), before).isInit && !Zeroes(true, later)
    ensures var image := ServeAll(spared, RequestsIn(before)).region;
            && (NothingLost(spared, inUse, before + [Made(Enable)] + later)
                <==> && |image| == NV_MEMORY_SIZE
                     && ZeroWhereKept(image, TraceAll(Untouched(|image|), RequestsIn(later))))
            && (later == [] ==>
                  (NothingLost(spared, inUse, before + [Made(Enable)] + later)
                   <==> image == Zeros(NV_MEMORY_SIZE)))
    decreases |before|
  {
    var events := before + [Made(Enable)] + later;
    if before == [] {
      assert events == [Made(Enable)] + later && events[1..] == later;
      if later == [] {
        AllKept(spared.region);
      }
    } else {
      var rest := before[1..];
      assert events[0] == before[0] && events[1..] == rest + [Made(Enable)] + later;
      if before[0].PoweredOff? {
        assert RequestsIn(before) == RequestsIn(rest);
        UseFlag(spared.region, spared.region, false, rest);
        LostAtLastZeroing(spared, false, rest, later);
      } else {
        var request := before[0].request;
        assert RequestsIn(before)[0] == request && RequestsIn(before)[1..] == RequestsIn(rest);
        var next := Serve(spared, request).0;
        UseFlag(Serve(Nv(spared.region, inUse), request).0.region, next.region, inUse || request == Enable, rest);
        ZeroesLater(inUse || request == Enable, next.region, rest, later);
        LostAtLastZeroing(next, inUse || request == Enable, rest, later);
      }
    }
  }

  lemma AllKept(image: seq<byte>)
    ensures |image| == NV_MEMORY_SIZE && ZeroWhereKept(image, TraceAll(Untouched(|image|), []))
            <==> image == Zeros(NV_MEMORY_SIZE)
  {
    var kept := Untouched(|image|);
    if |image| == NV_MEMORY_SIZE && ZeroWhereKept(image, kept) {
      forall j | 0 <= j < |image|
        ensures image[j] == 0
      {
        assert kept[j] == From(j);
      }
    }
  }

  /** Whether a region is in use does not depend on its bytes. */
  lemma {:induction false} UseFlag(a: seq<byte>, b: seq<byte>, inUse: bool, events: seq<Event>)
    ensures HappenAll(Nv(a, inUse), events).isInit == HappenAll(Nv(b, inUse), events).isInit
    decreases |events|
  {
    if events != [] {
      var x, y := Happen(Nv(a, inUse), events[0]), Happen(Nv(b, inUse), events[0]);
      UseFlag(x.region, y.region, x.isInit, events[1..]);
    }
  }

  lemma {:induction false} ZeroesLater(inUse: bool, region: seq<byte>, before: seq<Event>, later: seq<Event>)
    requires !HappenAll(Nv(region, inUse), before).isInit
    ensures Zeroes(inUse, before + [Made(Enable)] + later)
    decreases |before|
  {
    var events := before + [Made(Enable)] + later;
    if before != [] {
      assert events[0] == before[0] && events[1..] == before[1..] + [Made(Enable)] + later;
      var next := Happen(Nv(region, inUse), before[0]);
      ZeroesLater(next.isInit, next.region, before[1..], later);
    }
  }

  /** A nonzero image at the enabling can still leave no trace, when all of it is
      overwritten afterwards. */
  lemma LossCanBeOverwritten(region: seq<byte>)
    requires |region| == NV_MEMORY_SIZE
    ensures NothingLost(Nv(region, true), false, [Made(Enable), Made(Clear(0, |region|))])
  {
  }

  lemma {:induction false} HappenAllOfConcat(nv: Nv, a: seq<Event>, b: seq<Event>)
    ensures HappenAll(nv, a + b) == HappenAll(HappenAll(nv, a), b)
    decreases |a|
  {
    if a == [] {
      assert a + b == b;
    } else {
      assert (a + b)[0] == a[0] && (a + b)[1..] == a[1..] + b;
      HappenAllOfConcat(Happen(nv, a[0]), a[1..], b);
    }
  }

  lemma {:induction false} RequestsInConcat(a: seq<Event>, b: seq<Event>)
    ensures RequestsIn(a + b) == RequestsIn(a) + RequestsIn(b)
    decreases |a|
  {
    if a == [] {
      assert a + b == b;
    } else {
      assert (a + b)[0] == a[0] && (a + b)[1..] == a[1..] + b;
      RequestsInConcat(a[1..], b);
    }
  }

  lemma {:induction false} HappenAllMade(nv: Nv, requests: seq<Request>)
    ensures HappenAll(nv, AllMade(requests)) == ServeAll(nv, requests)
    ensures RequestsIn(AllMade(requests)) == requests
    decreases |requests|
  {
    if requests != [] {
      var first, rest := requests[0], requests[1..];
      var events := AllMade(requests);
      assert events == [Made(first)] + AllMade(rest);
      assert events != [] && events[0] == Made(first) && events[1..] == AllMade(rest);
      var next := Happen(nv, Made(first));
      HappenAllMade(next, rest);
      assert HappenAll(nv, events) == HappenAll(next, AllMade(rest)) == ServeAll(next, rest);
      assert RequestsIn(events) == [first] + rest == requests;
    }
  }

  /** A block moved away and back is intact, wherever the two ranges overlap;
      what is lost is only what lay under the destination. */
  lemma MoveThereAndBack(nv: Nv, source: nat, dest: nat, size: nat)
    requires source + size <= |nv.region| && dest + size <= |nv.region|
    ensures var back := ServeAll(nv, [Move(source, dest, size), Move(dest, source, size)]).region;
            && |back| == |nv.region|
            && back[source..source + size] == nv.region[source..source + size]
            && forall i :: 0 <= i < |nv.region| && !(dest <= i < dest + size) ==> back[i] == nv.region[i]
  {
    TwoRequests(nv, Move(source, dest, size), Move(dest, source, size));
    MovedBack(nv, source, dest, size);
  }

  lemma TwoRequests(nv: Nv, a: Request, b: Request)
    ensures ServeAll(nv, [a, b]) == Serve(Serve(nv, a).0, b).0
  {
    assert [a, b][1..] == [b] && [b][1..] == [];
    assert ServeAll(nv, [a, b]) == ServeAll(Serve(nv, a).0, [b]);
  }

  lemma MovedBack(nv: Nv, source: nat, dest: nat, size: nat)
    requires source + size <= |nv.region| && dest + size <= |nv.region|
    ensures var back := Serve(Serve(nv, Move(source, dest, size)).0, Move(dest, source, size)).0.region;
            && |back| == |nv.region|
            && back[source..source + size] == nv.region[source..source + size]
            && forall i :: 0 <= i < |nv.region| && !(dest <= i < dest + size) ==> back[i] == nv.region[i]
  {
    var out, home := Move(source, dest, size), Move(dest, source, size);
    var there := Serve(nv, out).0;
    var back := Serve(there, home).0.region;
    assert |there.region| == |back| == |nv.region|;
    forall i | 0 <= i < |nv.region| && (source <= i < source + size || !(dest <= i < dest + size))
      ensures back[i] == nv.region[i]
    {
      MovedByte(there, home, i);
      if source <= i < source + size {
        MovedByte(nv, out, dest + (i - source));
      } else {
        MovedByte(nv, out, i);
      }
    }
  }

  lemma MovedByte(nv: Nv, request: Request, j: nat)
    requires request.Move? && InRange(request, |nv.region|) && j < |nv.region|
    ensures var served := Serve(nv, request).0.region;
            && |served| == |nv.region|
            && served[j] == if request.dest <= j < request.dest + request.size
                            then nv.region[request.source + (j - request.dest)] else nv.region[j]
  {
  }

  /** The library skips a write that would change nothing: comparing first is
      the same as asking whether the write is a no-op. */
  lemma WriteIsNoOp(nv: Nv, start: nat, data: seq<byte>)
    requires start + |data| <= |nv.region|
    ensures nv.region[start..start + |data|] == data <==> Serve(nv, Write(start, data)).0 == nv
  {
    var written := Overlay(nv.region, start, data);
    assert written[start..start + |data|] == data;
    assert Overlay(nv.region, start, nv.region[start..start + |data|]) == nv.region;
  }

  // ---------------------------------------------------------------- in-place operations

  class NvState {
    var region: array<byte>
    var isInit: bool

    ghost function Value(): Nv
      reads this, region
    {
      Nv(region[..], isInit)
    }

    constructor ()
      ensures fresh(region) && Value() == Nv(Zeros(NV_MEMORY_SIZE), false)
    {
      region := new byte[NV_MEMORY_SIZE](_ => 0);
      isInit := false;
    }

    method NvEnableFromBlob(blob: seq<byte>) returns (r: NvResult)
      modifies this
      ensures (Value(), r) == EnableFromBlob(old(Value()), blob)
      ensures r == if old(isInit) then Err(AlreadyInitialized)
                   else if |blob| != 0x2_0000 then Err(MismatchedBlobSize(0x2_0000, |blob|)) else Ok(())
      ensures r.Ok? ==> region[..] == blob && isInit
      ensures r.Err? ==> Value() == old(Value())
      ensures region == old(region) || fresh(region)
    {
      if isInit {
        return Err(AlreadyInitialized);
      }
      r := ValidateNvSize(|blob|);
      if r.Err? {
        return;
      }
      region := new byte[|blob|](i requires 0 <= i < |blob| => blob[i]);
      isInit := true;
      assert region[..] == blob;
    }

    method NvEnable()
      modifies this
      ensures Value() == Enabled(old(Value()))
      ensures isInit
      ensures if old(isInit) then region[..] == old(region[..])
              else region.Length == 0x2_0000 && forall j :: 0 <= j < region.Length ==> region[j] == 0
      ensures region == old(region) || fresh(region)
    {
      if !isInit {
        region := new byte[NV_MEMORY_SIZE](_ => 0);
        isInit := true;
      }
    }

    method NvDisable()
      modifies this`isInit
      ensures Value() == old(Value()).(isInit := false)
    {
      isInit := false;
    }

    /** An access outside the region zeroes the caller's buffer. */
    method NvMemoryRead(start: nat, buf: array<byte>) returns (r: NvResult)
      requires buf != region
      modifies buf
      ensures if start + buf.Length <= region.Length
              then r == Ok(()) && buf[..] == region[start..start + buf.Length]
              else r == Err(InvalidAccess(start, buf.Length)) && buf[..] == Zeros(buf.Length)
    {
      if start + buf.Length > region.Length {
        forall i | 0 <= i < buf.Length {
          buf[i] := 0;
        }
        return Err(InvalidAccess(start, buf.Length));
      }
      forall i | 0 <= i < buf.Length {
        buf[i] := region[start + i];
      }
      return Ok(());
    }

    method NvIsDifferent(start: nat, data: seq<byte>) returns (r: NvResult, different: bool)
      ensures r == Serve(Value(), Write(start, data)).1
      ensures r == if start + |data| <= region.Length then Ok(()) else Err(InvalidAccess(start, |data|))
      ensures r.Ok? ==> (different <==> exists j :: 0 <= j < |data| && region[start + j] != data[j])
      ensures r.Ok? ==> (different <==> Serve(Value(), Write(start, data)).0 != Value())
    {
      if start + |data| > region.Length {
        return Err(InvalidAccess(start, |data|)), false;
      }
      WriteIsNoOp(Value(), start, data);
      different := region[start..start + |data|] != data;
      if different {
        assert !forall j :: 0 <= j < |data| ==> region[start..start + |data|][j] == data[j];
      }
      return Ok(()), different;
    }

    method NvMemoryWrite(start: nat, data: seq<byte>) returns (r: NvResult)
      modifies region
      ensures (Value(), r) == Serve(old(Value()), Write(start, data))
      ensures r == if start + |data| <= region.Length then Ok(()) else Err(InvalidAccess(start, |data|))
      ensures r.Err? ==> Value() == old(Value())
      ensures r.Ok? ==> isInit == old(isInit) && forall j :: 0 <= j < region.Length ==>
                region[j] == if start <= j < start + |data| then data[j - start] else old(region[j])
    {
      if start + |data| > region.Length {
        return Err(InvalidAccess(start, |data|));
      }
      forall i | 0 <= i < |data| {
        region[start + i] := data[i];
      }
      OverlayAt(region[..], old(region[..]), start, data);
      return Ok(());
    }

    method NvMemoryClear(start: nat, size: nat) returns (r: NvResult)
      modifies region
      ensures (Value(), r) == Serve(old(Value()), Clear(start, size))
      ensures r == if start + size <= region.Length then Ok(()) else Err(InvalidAccess(start, size))
      ensures r.Err? ==> Value() == old(Value())
      ensures r.Ok? ==> isInit == old(isInit) && forall j :: 0 <= j < region.Length ==>
                region[j] == if start <= j < start + size then 0 else old(region[j])
    {
      if start + size > region.Length {
        return Err(InvalidAccess(start, size));
      }
      forall j | 0 <= j < size {
        region[start + j] := 0;
      }
      OverlayAt(region[..], old(region[..]), start, Zeros(size));
      return Ok(());
    }

    method NvMemoryMove(source: nat, dest: nat, size: nat) returns (r: NvResult)
      modifies region
      ensures (Value(), r) == Serve(old(Value()), Move(source, dest, size))
      ensures r == if source + size > region.Length then Err(InvalidAccess(source, size))
                   else if dest + size > region.Length then Err(InvalidAccess(dest, size)) else Ok(())
      ensures r.Err? ==> Value() == old(Value())
      ensures r.Ok? ==> isInit == old(isInit) && forall j :: 0 <= j < region.Length ==>
                region[j] == if dest <= j < dest + size then old(region[source + (j - dest)]) else old(region[j])
    {
      if source + size > region.Length {
        return Err(InvalidAccess(source, size));
      }
      if dest + size > region.Length {
        return Err(InvalidAccess(dest, size));
      }
      CopyWithin(region, source, dest, size);
      return Ok(());
    }
  }

  /** `copy_within`: one byte at a time, in the direction that reads every byte
      of an overlapping source before overwriting it. */
  method CopyWithin(a: array<byte>, source: nat, dest: nat, size: nat)
    requires source + size <= a.Length && dest + size <= a.Length
    modifies a
    ensures a[..] == Overlay(old(a[..]), dest, old(a[source..source + size]))
    ensures forall j :: 0 <= j < a.Length ==>
              a[j] == if dest <= j < dest + size then old(a[source + (j - dest)]) else old(a[j])
  {
    ghost var was := a[..];
    if dest <= source {
      for k := 0 to size
        invariant forall i :: 0 <= i < dest || dest + k <= i < a.Length ==> a[i] == was[i]
        invariant forall i :: dest <= i < dest + k ==> a[i] == was[source + (i - dest)]
      {
        a[dest + k] := a[source + k];
      }
    } else {
      for k := size downto 0
        invariant forall i :: 0 <= i < dest + k || dest + size <= i < a.Length ==> a[i] == was[i]
        invariant forall i :: dest + k <= i < dest + size ==> a[i] == was[source + (i - dest)]
      {
        a[dest + k] := a[source + k];
      }
    }
    OverlayAt(a[..], was, dest, was[source..source + size]);
  }
}
