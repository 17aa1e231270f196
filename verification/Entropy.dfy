/** The entropy source: filling a block from a callback that returns any number
    of bytes, and the continuous RNG test of section 4.9.2 of FIPS 140-2. */
module Entropy {
  import opened Bytes
  import opened Wrappers

  const ENTROPY_BLOCK_SIZE: nat := 4

  type Block = b: seq<byte> | |b| == ENTROPY_BLOCK_SIZE witness [0, 0, 0, 0]

  /** One answer of the callback: the bytes it leaves in the slice it was given
      (cut to the slice's length), and the count it claims to have written. */
  datatype Answer = Failed | Answered(content: Block, returned: nat)

  datatype Error =
    | PlatformCallback
    | InvalidEntropyCallbackLength(requested: nat, returned: nat)
    | EntropyHealthTestFailed

  // ---------------------------------------------------------------- filling one block

  /** The outcome of a fill, and the answers that the callback has yet to give. */
  datatype Fill = Fill(block: Result<Block, Error>, rest: seq<Answer>)

  /** Complete a block of which `accepted` is already there. */
  function FillBlock(answers: seq<Answer>, accepted: seq<byte>): (r: Fill)
    requires |accepted| <= ENTROPY_BLOCK_SIZE
    ensures r.block.Err? ==> !r.block.error.EntropyHealthTestFailed?
    decreases |answers|
  {
    var requested := ENTROPY_BLOCK_SIZE - |accepted|;
    if requested == 0 then Fill(Ok(accepted), answers)
    else if answers == [] then Fill(Err(PlatformCallback), [])
    else if answers[0].Failed? then Fill(Err(PlatformCallback), answers[1..])
    else if answers[0].returned == 0 || answers[0].returned > requested then
      Fill(Err(InvalidEntropyCallbackLength(requested, answers[0].returned)), answers[1..])
    else FillBlock(answers[1..], accepted + answers[0].content[..answers[0].returned])
  }

  /** The answers start with at most `missing` of them whose counts, each at
      least one and at most what was asked for, add up to `missing`. */
  predicate Covers(answers: seq<Answer>, missing: nat)
    decreases missing
  {
    missing > 0 ==>
      && answers != [] && answers[0].Answered?
      && 1 <= answers[0].returned <= missing
      && Covers(answers[1..], missing - answers[0].returned)
  }

  /** The byte stream behind the answers: everything they claim, in order. */
  function Stream(answers: seq<Answer>): seq<byte>
    decreases |answers|
  {
    if answers == [] then []
    else
      (if answers[0].Failed? then []
       else if answers[0].returned > ENTROPY_BLOCK_SIZE then answers[0].content
       else answers[0].content[..answers[0].returned])
      + Stream(answers[1..])
  }

  /** The fill succeeds exactly on covering answers, and then the block is what
      the byte stream loses. */
  lemma FillIsHeadOfStream(answers: seq<Answer>, accepted: seq<byte>)
    requires |accepted| <= ENTROPY_BLOCK_SIZE
    ensures var fill := FillBlock(answers, accepted);
            && (fill.block.Ok? <==> Covers(answers, ENTROPY_BLOCK_SIZE - |accepted|))
            && (fill.block.Ok? ==> accepted + Stream(answers) == fill.block.value + Stream(fill.rest))
  {
    FillSucceedsExactlyIf(answers, accepted);
    if FillBlock(answers, accepted).block.Ok? {
      FilledFromStream(answers, accepted);
    }
  }

  lemma {:induction false} FillSucceedsExactlyIf(answers: seq<Answer>, accepted: seq<byte>)
    requires |accepted| <= ENTROPY_BLOCK_SIZE
    ensures FillBlock(answers, accepted).block.Ok? <==> Covers(answers, ENTROPY_BLOCK_SIZE - |accepted|)
    decreases |answers|
  {
    var requested := ENTROPY_BLOCK_SIZE - |accepted|;
    if requested > 0 && answers != [] && answers[0].Answered? && 1 <= answers[0].returned <= requested {
      FillSucceedsExactlyIf(answers[1..], accepted + answers[0].content[..answers[0].returned]);
    }
  }

  lemma {:induction false} FilledFromStream(answers: seq<Answer>, accepted: seq<byte>)
    requires |accepted| <= ENTROPY_BLOCK_SIZE && FillBlock(answers, accepted).block.Ok?
    ensures var fill := FillBlock(answers, accepted);
            accepted + Stream(answers) == fill.block.value + Stream(fill.rest)
    decreases |answers|
  {
    if |accepted| < ENTROPY_BLOCK_SIZE {
      var chunk, rest := answers[0].content[..answers[0].returned], answers[1..];
      assert FillBlock(answers, accepted) == FillBlock(rest, accepted + chunk);
      FilledFromStream(rest, accepted + chunk);
      assert Stream(answers) == chunk + Stream(rest);
      assert accepted + Stream(answers) == accepted + chunk + Stream(rest);
    }
  }

  /** What is left when some answers have been given. */
  predicate IsSuffix(rest: seq<Answer>, answers: seq<Answer>) {
    |rest| <= |answers| && rest == answers[|answers| - |rest|..]
  }

  /** Every answer ends the fill or adds a byte, so at most one is asked for per
      missing byte: four for a whole block. */
  lemma {:induction false} FillUsesFewAnswers(answers: seq<Answer>, accepted: seq<byte>)
    requires |accepted| <= ENTROPY_BLOCK_SIZE
    ensures var rest := FillBlock(answers, accepted).rest;
            IsSuffix(rest, answers) && |answers| <= |rest| + (ENTROPY_BLOCK_SIZE - |accepted|)
    decreases |answers|
  {
    var requested := ENTROPY_BLOCK_SIZE - |accepted|;
    if requested > 0 && answers != [] && answers[0].Answered? && 1 <= answers[0].returned <= requested {
      FillUsesFewAnswers(answers[1..], accepted + answers[0].content[..answers[0].returned]);
    }
  }

  /** A fill stops with an error at the first answer that is no good: one that
      failed or is missing, or one whose count is zero or more than was asked for.
      The answers before it are complete chunks of fewer than four bytes in all. */
  lemma {:induction false} FillStopsAt(chunks: seq<Answer>, accepted: seq<byte>, total: nat, bad: seq<Answer>)
    requires |accepted| <= total < 4
    requires AllChunks(chunks, total - |accepted|)
    requires bad != [] && bad[0].Answered? ==> bad[0].returned == 0 || bad[0].returned > 4 - total
    ensures FillBlock(chunks + bad, accepted)
         == Fill(Err(if bad == [] || bad[0].Failed? then PlatformCallback
                     else InvalidEntropyCallbackLength(4 - total, bad[0].returned)),
                 if bad == [] then [] else bad[1..])
    decreases |chunks|
  {
    if chunks == [] {
      assert chunks + bad == bad;
    } else {
      assert (chunks + bad)[0] == chunks[0] && (chunks + bad)[1..] == chunks[1..] + bad;
      FillStopsAt(chunks[1..], accepted + chunks[0].content[..chunks[0].returned], total, bad);
    }
  }

  /** Answers of at least one byte each, `sum` bytes in all. */
  predicate AllChunks(answers: seq<Answer>, sum: nat)
    decreases |answers|
  {
    if answers == [] then sum == 0
    else answers[0].Answered? && 1 <= answers[0].returned <= sum && AllChunks(answers[1..], sum - answers[0].returned)
  }

  /** However the callback cuts its stream into chunks, the block is the same: its
      first four bytes are all that counts. */
  lemma ChunkIndependence(answers: seq<Answer>, others: seq<Answer>)
    requires Covers(answers, ENTROPY_BLOCK_SIZE) && Covers(others, ENTROPY_BLOCK_SIZE)
    requires forall k :: 0 <= k < ENTROPY_BLOCK_SIZE && k < |Stream(answers)| && k < |Stream(others)| ==>
               Stream(answers)[k] == Stream(others)[k]
    ensures FillBlock(answers, []).block.Ok? && FillBlock(answers, []).block == FillBlock(others, []).block
  {
    FillIsHeadOfStream(answers, []);
    FillIsHeadOfStream(others, []);
    var a, b := FillBlock(answers, []).block.value, FillBlock(others, []).block.value;
    assert [] + Stream(answers) == Stream(answers) && [] + Stream(others) == Stream(others);
    forall k | 0 <= k < ENTROPY_BLOCK_SIZE
      ensures a[k] == b[k]
    {
      assert a[k] == Stream(answers)[k] && b[k] == Stream(others)[k];
    }
    assert a == b;
  }

  // ---------------------------------------------------------------- requests

  /** `Aborted` is the failed assertion on a source that was never initialized. */
  datatype Reply = Initialized | Bytes(bytes: seq<byte>) | Refused(error: Error) | Aborted

  /** The reply, and the raw block when one was read completely. */
  datatype Exchange = Exchange(reply: Reply, raw: Option<Block>)

  function Min(a: nat, b: nat): nat {
    if a < b then a else b
  }

  /** A request by the TPM library for some amount; zero initializes the source. */
  function Serve(previous: Option<Block>, amount: nat, answers: seq<Answer>): Exchange {
    var fill := FillBlock(answers, []);
    if amount == 0 then
      match fill.block
      case Ok(block) => Exchange(Initialized, Some(block))
      case Err(error) => Exchange(Refused(error), None)
    else if previous.None? then Exchange(Aborted, None)
    else
      match fill.block
      case Ok(block) =>
        if previous == Some(block) then Exchange(Refused(EntropyHealthTestFailed), Some(block))
        else Exchange(Bytes(block[..Min(amount, ENTROPY_BLOCK_SIZE)]), Some(block))
      case Err(error) => Exchange(Refused(error), None)
  }

  /** The answers that are left for the next request. */
  function AnswersAfter(previous: Option<Block>, amount: nat, answers: seq<Answer>): seq<Answer> {
    if amount > 0 && previous.None? then answers else FillBlock(answers, []).rest
  }

  /** The state after an exchange: a rejected block equals its predecessor, so
      keeping the predecessor and storing the block are the same. */
  function PreviousAfter(previous: Option<Block>, exchange: Exchange): Option<Block> {
    if exchange.reply.Initialized? || exchange.reply.Bytes? then exchange.raw else previous
  }

  /** Requests served one after the other from one stream of answers. */
  function Run(previous: Option<Block>, amounts: seq<nat>, answers: seq<Answer>): (r: seq<Exchange>)
    ensures |r| == |amounts|
    decreases |amounts|
  {
    if amounts == [] then []
    else
      var exchange := Serve(previous, amounts[0], answers);
      [exchange] + Run(PreviousAfter(previous, exchange), amounts[1..], AnswersAfter(previous, amounts[0], answers))
  }

  /** The answers that are left after the first `n` requests of a run. */
  function RestAfter(previous: Option<Block>, amounts: seq<nat>, answers: seq<Answer>, n: nat): seq<Answer>
    requires n <= |amounts|
    decreases n
  {
    if n == 0 then answers
    else
      RestAfter(PreviousAfter(previous, Serve(previous, amounts[0], answers)), amounts[1..],
                AnswersAfter(previous, amounts[0], answers), n - 1)
  }

  /** The last raw block read completely in a run. */
  function LastRaw(before: Option<Block>, exchanges: seq<Exchange>): Option<Block>
    decreases |exchanges|
  {
    if exchanges == [] then before
    else LastRaw(if exchanges[0].raw.Some? then exchanges[0].raw else before, exchanges[1..])
  }

  /** What FIPS 140-2 asks of an exchange, given the raw block read before it. */
  predicate Conforms(predecessor: Option<Block>, amount: nat, exchange: Exchange) {
    match exchange.reply
    case Bytes(bytes) =>
      && predecessor.Some? && exchange.raw.Some? && amount > 0
      && exchange.raw != predecessor
      && |bytes| == (if amount <= 4 then amount else 4) && bytes <= exchange.raw.value
    case Initialized => amount == 0 && exchange.raw.Some?
    case Refused(EntropyHealthTestFailed) => predecessor.Some? && exchange.raw == predecessor
    case Refused(_) => exchange.raw.None?
    case Aborted => amount > 0 && predecessor.None?
  }

  /** An exchange that found `before` and left `after` used at most four answers,
      and its raw block is made of these and nothing else. */
  predicate Fresh(exchange: Exchange, before: seq<Answer>, after: seq<Answer>) {
    && IsSuffix(after, before) && |before| <= |after| + ENTROPY_BLOCK_SIZE
    && (exchange.raw.Some? ==>
          FillBlock(before[..|before| - |after|], []) == Fill(Ok(exchange.raw.value), []))
  }

  /** The continuous test over a whole run: each exchange is judged against the
      last raw block read before it, whether that one was handed out, discarded,
      rejected or followed by failed reads. */
  lemma {:induction false} ContinuousTest(previous: Option<Block>, amounts: seq<nat>, answers: seq<Answer>, i: nat)
    requires i < |amounts|
    ensures var run := Run(previous, amounts, answers);
            Conforms(LastRaw(previous, run[..i]), amounts[i], run[i])
    decreases |amounts|
  {
    var exchange := Serve(previous, amounts[0], answers);
    var after := PreviousAfter(previous, exchange);
    var run := Run(previous, amounts, answers);
    if i == 0 {
      assert run[..0] == [];
    } else {
      var rest := AnswersAfter(previous, amounts[0], answers);
      ContinuousTest(after, amounts[1..], rest, i - 1);
      assert run[..i][1..] == Run(after, amounts[1..], rest)[..i - 1];
      assert after == if exchange.raw.Some? then exchange.raw else previous;
    }
  }

  /** Every raw block of a run is fresh: requests draw from one stream of answers,
      each starting behind those before it. */
  lemma BlocksAreFresh(previous: Option<Block>, amounts: seq<nat>, answers: seq<Answer>, i: nat)
    requires i < |amounts|
    ensures IsSuffix(RestAfter(previous, amounts, answers, i), answers)
    ensures Fresh(Run(previous, amounts, answers)[i],
                  RestAfter(previous, amounts, answers, i), RestAfter(previous, amounts, answers, i + 1))
  {
    RestIsSuffix(previous, amounts, answers, i);
    var state := ExchangeAt(previous, amounts, answers, i);
    FirstIsFresh(state, amounts[i], RestAfter(previous, amounts, answers, i));
  }

  lemma {:induction false} RestIsSuffix(previous: Option<Block>, amounts: seq<nat>, answers: seq<Answer>, n: nat)
    requires n <= |amounts|
    ensures IsSuffix(RestAfter(previous, amounts, answers, n), answers)
    decreases n
  {
    if n > 0 {
      var rest := AnswersAfter(previous, amounts[0], answers);
      FillUsesFewAnswers(answers, []);
      RestIsSuffix(PreviousAfter(previous, Serve(previous, amounts[0], answers)), amounts[1..], rest, n - 1);
      SuffixOfSuffix(RestAfter(previous, amounts, answers, n), rest, answers);
    }
  }

  /** Exchange `i` of a run serves request `i` from the answers left by then. */
  lemma {:induction false} ExchangeAt(previous: Option<Block>, amounts: seq<nat>, answers: seq<Answer>, i: nat)
    returns (state: Option<Block>)
    requires i < |amounts|
    ensures var before := RestAfter(previous, amounts, answers, i);
            && Run(previous, amounts, answers)[i] == Serve(state, amounts[i], before)
            && RestAfter(previous, amounts, answers, i + 1) == AnswersAfter(state, amounts[i], before)
    decreases i
  {
    var after := PreviousAfter(previous, Serve(previous, amounts[0], answers));
    var rest := AnswersAfter(previous, amounts[0], answers);
    if i == 0 {
      state := previous;
      assert RestAfter(after, amounts[1..], rest, 0) == rest;
    } else {
      state := ExchangeAt(after, amounts[1..], rest, i - 1);
    }
  }

  lemma SuffixOfSuffix(a: seq<Answer>, b: seq<Answer>, c: seq<Answer>)
    requires IsSuffix(a, b) && IsSuffix(b, c)
    ensures IsSuffix(a, c)
  {
  }

  lemma FirstIsFresh(previous: Option<Block>, amount: nat, answers: seq<Answer>)
    ensures Fresh(Serve(previous, amount, answers), answers, AnswersAfter(previous, amount, answers))
  {
    FillUsesFewAnswers(answers, []);
    if Serve(previous, amount, answers).raw.Some? {
      FillOfUsed(answers, [], |answers| - |FillBlock(answers, []).rest|);
    }
  }

  /** A fill depends on the answers it uses and on no others. */
  lemma {:induction false} FillOfUsed(answers: seq<Answer>, accepted: seq<byte>, used: nat)
    requires |accepted| <= ENTROPY_BLOCK_SIZE && FillBlock(answers, accepted).block.Ok?
    requires used == |answers| - |FillBlock(answers, accepted).rest|
    ensures FillBlock(answers[..used], accepted) == Fill(FillBlock(answers, accepted).block, [])
    decreases |answers|
  {
    if |accepted| == ENTROPY_BLOCK_SIZE {
      assert answers[..used] == [];
    } else {
      var tail, more := answers[1..], accepted + answers[0].content[..answers[0].returned];
      assert FillBlock(answers, accepted) == FillBlock(tail, more);
      FillUsesFewAnswers(tail, more);
      FillOfUsed(tail, more, used - 1);
      assert answers[..used][0] == answers[0] && answers[..used][1..] == tail[..used - 1];
      assert FillBlock(answers[..used], accepted) == FillBlock(tail[..used - 1], more);
    }
  }

  /** From power-on the first raw block is never handed out. */
  lemma FirstBlockIsDiscarded(amounts: seq<nat>, answers: seq<Answer>, i: nat)
    requires i < |amounts|
    ensures var run := Run(None, amounts, answers);
            run[i].reply.Bytes? ==> exists j :: 0 <= j < i && run[j].raw.Some?
  {
    ContinuousTest(None, amounts, answers, i);
    LastRawIsThere(None, Run(None, amounts, answers)[..i]);
  }

  lemma {:induction false} LastRawIsThere(before: Option<Block>, exchanges: seq<Exchange>)
    ensures LastRaw(before, exchanges) == before
            || exists j :: 0 <= j < |exchanges| && exchanges[j].raw.Some?
    decreases |exchanges|
  {
    if exchanges != [] && exchanges[0].raw.None? {
      LastRawIsThere(before, exchanges[1..]);
    }
  }

  // ---------------------------------------------------------------- runs with restores

  /** A request with the answers that the callback has ready for it, or a restore,
      which puts back the block of its snapshot. */
  datatype Step = Request(amount: nat, answers: seq<Answer>) | Restored(previous: Option<Block>)

  function StateAfter(previous: Option<Block>, steps: seq<Step>): Option<Block>
    decreases |steps|
  {
    if steps == [] then previous
    else
      var before := StateAfter(previous, steps[..|steps| - 1]);
      match steps[|steps| - 1]
      case Request(amount, answers) => PreviousAfter(before, Serve(before, amount, answers))
      case Restored(block) => block
  }

  /** The raw block that the last step read completely. */
  function RawOfLast(previous: Option<Block>, steps: seq<Step>): Option<Block>
    requires steps != []
  {
    match steps[|steps| - 1]
    case Request(amount, answers) => Serve(StateAfter(previous, steps[..|steps| - 1]), amount, answers).raw
    case Restored(_) => None
  }

  /** The last raw block read completely, whatever was restored since. */
  function LastRead(previous: Option<Block>, steps: seq<Step>): Option<Block>
    decreases |steps|
  {
    if steps == [] then previous
    else if RawOfLast(previous, steps).Some? then RawOfLast(previous, steps)
    else LastRead(previous, steps[..|steps| - 1])
  }

  /** What the last restore put back, if there was one since the last raw block was read. */
  function PutBack(previous: Option<Block>, steps: seq<Step>): Option<Option<Block>>
    decreases |steps|
  {
    if steps == [] || RawOfLast(previous, steps).Some? then None
    else if steps[|steps| - 1].Restored? then Some(steps[|steps| - 1].previous)
    else PutBack(previous, steps[..|steps| - 1])
  }

  lemma {:induction false} StateIsPutBackOrRead(previous: Option<Block>, steps: seq<Step>)
    ensures StateAfter(previous, steps) == PutBack(previous, steps).GetOr(LastRead(previous, steps))
    decreases |steps|
  {
    if steps != [] {
      StateIsPutBackOrRead(previous, steps[..|steps| - 1]);
    }
  }

  /** The continuous test over runs with restores. A block equal to the one read
      just before it is let through exactly when a restore since then put back a
      different one; a request aborts exactly when a restore put back an
      uninitialized source, or it never was initialized. */
  lemma {:induction false} ContinuousTestAcrossRestores(previous: Option<Block>, steps: seq<Step>, amount: nat, answers: seq<Answer>)
    ensures var exchange := Serve(StateAfter(previous, steps), amount, answers);
            var last, back := LastRead(previous, steps), PutBack(previous, steps);
            && Conforms(back.GetOr(last), amount, exchange)
            && (amount > 0 && last.Some? && FillBlock(answers, []).block == Ok(last.value) ==>
                  (exchange.reply.Bytes? <==> back.Some? && back.value.Some? && back.value != last))
            && (exchange.reply.Aborted? <==> amount > 0 && (back == Some(None) || (back.None? && last.None?)))
  {
    StateIsPutBackOrRead(previous, steps);
  }

  function Whole(block: Block): seq<Answer> {
    [Answered(block, ENTROPY_BLOCK_SIZE)]
  }

  lemma WholeFills(block: Block)
    ensures FillBlock(Whole(block), []) == Fill(Ok(block), [])
  {
    var answers := Whole(block);
    assert answers[1..] == [] && [] + block[..ENTROPY_BLOCK_SIZE] == block;
    assert FillBlock(answers, []) == FillBlock(answers[1..], [] + block[..ENTROPY_BLOCK_SIZE]);
  }

  /** Initialize, save, read a block, restore: the same block again is let through.
      And a snapshot from before the initialization makes the next request abort. */
  lemma RepeatAfterRestore(b0: Block, b1: Block, amount: nat)
    requires b0 != b1 && amount > 0
    ensures var steps := [Request(0, Whole(b0)), Request(amount, Whole(b1)), Restored(Some(b0))];
            && LastRead(None, steps) == Some(b1)
            && Serve(StateAfter(None, steps), amount, Whole(b1))
               == Exchange(Bytes(if amount <= 4 then b1[..amount] else b1), Some(b1))
    ensures Serve(StateAfter(None, [Request(0, Whole(b0)), Restored(None)]), amount, Whole(b1)).reply == Aborted
  {
    WholeFills(b0);
    WholeFills(b1);
    var initialized := [Request(0, Whole(b0))];
    var asked := initialized + [Request(amount, Whole(b1))];
    var steps := asked + [Restored(Some(b0))];
    assert b1[..ENTROPY_BLOCK_SIZE] == b1;
    assert initialized[..0] == [] && asked[..1] == initialized && steps[..2] == asked;
    assert StateAfter(None, initialized) == Some(b0);
    assert RawOfLast(None, asked) == Some(b1);
    assert steps == [Request(0, Whole(b0)), Request(amount, Whole(b1)), Restored(Some(b0))];
    assert RawOfLast(None, steps) == None && LastRead(None, steps) == LastRead(None, asked);
  }

  lemma {:induction false} StateAfterConcat(previous: Option<Block>, a: seq<Step>, b: seq<Step>)
    ensures StateAfter(previous, a + b) == StateAfter(StateAfter(previous, a), b)
    decreases |b|
  {
    if b == [] {
      assert a + b == a;
    } else {
      assert (a + b)[..|a + b| - 1] == a + b[..|b| - 1];
      StateAfterConcat(previous, a, b[..|b| - 1]);
    }
  }

  // ---------------------------------------------------------------- the platform's methods

  class Callbacks {
    var answers: seq<Answer>

    /** Write into `buf[start..]`; `None` reports an error. */
    method GetCryptRandom(buf: array<byte>, start: nat) returns (r: Option<nat>)
      requires buf.Length == ENTROPY_BLOCK_SIZE && start <= buf.Length
      modifies this, buf
      ensures buf[..start] == old(buf[..start])
      ensures old(answers) == [] ==> answers == [] && r.None?
      ensures old(answers) != [] ==>
                && answers == old(answers)[1..]
                && match old(answers)[0]
                   case Failed => r.None?
                   case Answered(content, returned) =>
                     r == Some(returned) && buf[start..] == content[..ENTROPY_BLOCK_SIZE - start]
    {
      if answers == [] {
        return None;
      }
      var answer := answers[0];
      answers := answers[1..];
      if answer.Failed? {
        return None;
      }
      forall i | start <= i < buf.Length {
        buf[i] := answer.content[i - start];
      }
      return Some(answer.returned);
    }
  }

  lemma ChunkAccepted(block: Block, accepted: seq<byte>, content: Block, returned: nat)
    requires |accepted| + returned <= ENTROPY_BLOCK_SIZE
    requires block[..|accepted|] == accepted && block[|accepted|..] == content[..ENTROPY_BLOCK_SIZE - |accepted|]
    ensures block[..|accepted| + returned] == accepted + content[..returned]
  {
    var n := |accepted|;
    assert block[..n + returned] == block[..n] + block[n..][..returned];
  }

  class EntropyState {
    var previousBlock: Option<Block>

    constructor ()
      ensures previousBlock == None
    {
      previousBlock := None;
    }

    /** The callback is asked at most four times, and no answer is asked for twice. */
    method ReadEntropyBlock(callbacks: Callbacks) returns (r: Result<Block, Error>)
      modifies callbacks
      ensures Fill(r, callbacks.answers) == FillBlock(old(callbacks.answers), [])
      ensures IsSuffix(callbacks.answers, old(callbacks.answers))
      ensures |old(callbacks.answers)| <= |callbacks.answers| + ENTROPY_BLOCK_SIZE
    {
      var block := new byte[ENTROPY_BLOCK_SIZE](_ => 0);
      var written := 0;
      FillUsesFewAnswers(callbacks.answers, []);
      while written < block.Length
        invariant 0 <= written <= block.Length
        invariant FillBlock(callbacks.answers, block[..written]) == FillBlock(old(callbacks.answers), [])
        decreases block.Length - written
      {
        ghost var accepted, before := block[..written], callbacks.answers;
        var requested := block.Length - written;
        var returned := callbacks.GetCryptRandom(block, written);
        if returned.None? {
          return Err(PlatformCallback);
        }
        if returned.value == 0 || returned.value > requested {
          return Err(InvalidEntropyCallbackLength(requested, returned.value));
        }
        ChunkAccepted(block[..], accepted, before[0].content, returned.value);
        assert block[..written + returned.value] == block[..][..written + returned.value];
        written := written + returned.value;
      }
      assert block[..written] == block[..];
      return Ok(block[..]);
    }

    method InitializeEntropy(callbacks: Callbacks) returns (r: Result<(), Error>)
      modifies this, callbacks
      ensures var exchange := Serve(old(previousBlock), 0, old(callbacks.answers));
              && previousBlock == PreviousAfter(old(previousBlock), exchange)
              && exchange.reply == if r.Ok? then Initialized else Refused(r.error)
      ensures callbacks.answers == AnswersAfter(old(previousBlock), 0, old(callbacks.answers))
    {
      var block := ReadEntropyBlock(callbacks);
      if block.Err? {
        return Err(block.error);
      }
      previousBlock := Some(block.value);
      return Ok(());
    }

    /** The caller has initialized the source; the bytes go to the front of `buf`. */
    method GetEntropy(callbacks: Callbacks, buf: array<byte>) returns (r: Result<nat, Error>)
      requires previousBlock.Some? && buf.Length > 0
      modifies this, callbacks, buf
      ensures var exchange := Serve(old(previousBlock), buf.Length, old(callbacks.answers));
              && previousBlock == PreviousAfter(old(previousBlock), exchange)
              && match r
                 case Ok(returned) =>
                   && returned <= buf.Length && exchange.reply == Bytes(buf[..returned])
                   && buf[returned..] == old(buf[..])[returned..]
                 case Err(error) => exchange.reply == Refused(error) && buf[..] == old(buf[..])
      ensures callbacks.answers == AnswersAfter(old(previousBlock), buf.Length, old(callbacks.answers))
    {
      var block := ReadEntropyBlock(callbacks);
      if block.Err? {
        return Err(block.error);
      }
      if previousBlock == Some(block.value) {
        return Err(EntropyHealthTestFailed);
      }
      previousBlock := Some(block.value);
      var returned := Min(buf.Length, ENTROPY_BLOCK_SIZE);
      forall i | 0 <= i < returned {
        buf[i] := block.value[i];
      }
      assert buf[..returned] == block.value[..returned];
      return Ok(returned);
    }
  }
}
