/** What saving and restoring promise: layout, rejection, ownership of crypto
    handles, and the move of running sequences from one process to another. */
module RestoreTheorems {
  import opened Bytes
  import opened Failure
  import opened SequenceObjects
  import opened RuntimeState
  import opened Wrappers

  function Slot(memory: seq<Unit>, i: nat): Object
    requires i < |memory|
  {
    AsObject(memory[i])
  }

  // ---------------------------------------------------------------- layout and rejection

  /** Entry `i` of the table lies behind the header at the sum of the sizes
      before it, as the variable's bytes, or as the exported slots. */
  lemma BlobLayout(l: Library, i: nat)
    requires Shaped(l) && i < VARIABLE_COUNT
    ensures Blob(l)[..HEADER_SIZE] == HEADER
    ensures var at := HEADER_SIZE + Offset(l.vars, i);
            && at + |l.vars[i]| <= RequiredSize(l)
            && Blob(l)[at..at + |l.vars[i]|]
               == if i == OBJECTS then ExportAll(l.vars[i], l.crypto) else l.vars[i]
  {
    var saved := SavedVars(l);
    SameOffsets(saved, l.vars);
    EntryInConcat(saved, i);
    var from := Offset(saved, i);
    var to := from + |saved[i]|;
    assert Blob(l) == HEADER + Concat(saved);
    assert (HEADER + Concat(saved))[HEADER_SIZE + from..HEADER_SIZE + to] == Concat(saved)[from..to];
  }

  lemma SameOffsets(a: seq<seq<Unit>>, b: seq<seq<Unit>>)
    requires SameSizes(a, b)
    ensures Total(a) == Total(b)
    ensures forall i :: 0 <= i <= |a| ==> Offset(a, i) == Offset(b, i)
  {
    assert a[..|a|] == a && b[..|b|] == b;
    forall i | 0 <= i <= |a|
      ensures Offset(a, i) == Offset(b, i)
    {
      OffsetsAgree(a, b, i);
    }
  }

  /** The payload's slots that are about to be imported. */
  function Slots(l: Library, blob: seq<Unit>): seq<Unit>
    requires Shaped(l) && |blob| == RequiredSize(l)
  {
    Cut(l.vars, blob[HEADER_SIZE..])[OBJECTS]
  }

  /** Every code of a restore, and what each one leaves behind: a rejected blob
      changes nothing; an import failure is reported exactly when it is the
      platform's first failure, and latched in any case. */
  lemma RestoreCodes(l: Library, blob: seq<Unit>, backend: Backend, failure: Failure)
    requires Shaped(l)
    ensures var applied := Apply(l, blob, |blob|, backend, failure);
            && (applied.code == 2 <==> |blob| != RequiredSize(l))
            && (applied.code == 3 <==> |blob| == RequiredSize(l) && blob[..HEADER_SIZE] != HEADER)
            && (applied.code == 2 || applied.code == 3 ==> applied.library == l && applied.failure == failure)
            && (applied.code == 0 || applied.code == 4 ==> !applied.library.nvIndexCached)
            && applied.code in {0, 2, 3, 4}
    ensures |blob| == RequiredSize(l) && blob[..HEADER_SIZE] == HEADER ==>
              var applied := Apply(l, blob, |blob|, backend, failure);
              var fails := exists i :: 0 <= i < MAX_LOADED_OBJECTS && Fails(Slots(l, blob)[i], backend, i);
              && (applied.code == 4 <==> !failure.inFailureMode && fails)
              && applied.failure == if fails then Fail(failure, backend.location, backend.code) else failure
  {
    if |blob| == RequiredSize(l) && blob[..HEADER_SIZE] == HEADER {
      assert blob[HEADER_SIZE..|blob|] == blob[HEADER_SIZE..];
      var flushed := FlushUpTo(l, backend.process, MAX_LOADED_OBJECTS);
      var s := Import(Slots(l, blob), flushed.crypto, flushed.nextHandle, failure, false);
      FailureOfImport(s, backend, failure.inFailureMode, MAX_LOADED_OBJECTS);
    }
  }

  /** The import stops at the first failing slot, unless the platform had already failed. */
  lemma {:induction false} FailureOfImport(s: Import, backend: Backend, wasFailing: bool, n: nat)
    requires n <= |s.memory| && wasFailing == s.failure.inFailureMode && !s.stopped
    ensures var r := ImportUpTo(s, backend, wasFailing, n);
            var fails := exists i :: 0 <= i < n && Fails(s.memory[i], backend, i);
            && (r.stopped <==> !wasFailing && fails)
            && r.failure == (if fails then Fail(s.failure, backend.location, backend.code) else s.failure)
            && forall k :: n <= k < |s.memory| ==> r.memory[k] == s.memory[k]
    decreases n
  {
    if n > 0 {
      FailureOfImport(s, backend, wasFailing, n - 1);
      var before := ImportUpTo(s, backend, wasFailing, n - 1);
      assert before.memory[n - 1] == s.memory[n - 1];
      if Fails(s.memory[n - 1], backend, n - 1) {
      } else if exists i :: 0 <= i < n && Fails(s.memory[i], backend, i) {
        var i :| 0 <= i < n && Fails(s.memory[i], backend, i);
        assert i < n - 1;
      }
    }
  }

  // ---------------------------------------------------------------- what an accepted blob leaves

  /** Whether a staged slot can be rebuilt, field by field. */
  predicate CanRebuild(o: Object) {
    if (o.signSeq || o.verifySeq) && o.scheme == TPM_ALG_MLDSA then o.contexts[0].def.Serialized?
    else forall j :: 0 <= j < HASH_COUNT && (j == 0 || o.eventSeq) ==>
           o.contexts[j].kind == HASH_STATE_SMAC || o.contexts[j].run.Flat?
  }

  predicate IsRunningImage(u: Unit) {
    u.Image? && u.slot.occupied && u.slot.sequence
  }

  /** The slots on which the import fails. */
  predicate FailsAt(u: Unit, backend: Backend, i: nat) {
    IsRunningImage(u) && (!CanRebuild(u.slot) || i in backend.refused)
  }

  lemma FailsExactlyIf(u: Unit, backend: Backend, i: nat)
    ensures Fails(u, backend, i) <==> FailsAt(u, backend, i)
  {
    if u.Image? && !IsMlDsa(u.slot) && Importable(u.slot) {
      forall j | 0 <= j < HASH_COUNT && (j == 0 || u.slot.eventSeq)
        ensures u.slot.contexts[j].kind == HASH_STATE_SMAC || u.slot.contexts[j].run.Flat?
      {
        assert ContextImportable(u.slot.contexts[j]);
      }
    }
  }

  /** A slot rebuilt from what was staged for it, field by field. */
  predicate RebuiltFrom(staged: Object, now: Object, process: nat, crypto: map<nat, nat>) {
    && now == staged.(contexts := now.contexts)
    && if (staged.signSeq || staged.verifySeq) && staged.scheme == TPM_ALG_MLDSA
       then && staged.contexts[0].def.Serialized? && now.contexts[0].def.Handle?
            && now.contexts[0].def.process == process
            && now.contexts[0].def.id in crypto && crypto[now.contexts[0].def.id] == staged.contexts[0].def.state
            && now.contexts == staged.contexts[0 := staged.contexts[0].(def := now.contexts[0].def)]
       else forall j :: 0 <= j < HASH_COUNT ==>
              now.contexts[j] ==
              if !(j == 0 || staged.eventSeq) then staged.contexts[j]
              else if staged.contexts[j].kind == HASH_STATE_SMAC then Repaired(staged.contexts[j], process)
              else staged.contexts[j].(def := HashDef(process, staged.contexts[j].alg),
                                       run := Native(process, staged.contexts[j].run.state))
  }

  function Repaired(c: Context, process: nat): Context {
    Context(c.kind, c.alg, Null, Method(process, CryptCmacData), Method(process, CryptCmacEnd), c.run)
  }

  /** A slot whose import failed: no handle, and SMAC contexts repaired if the
      loop went on because the platform had failed before. */
  predicate LeftByFailure(staged: Object, now: Object, process: nat, wentOn: bool) {
    && now == staged.(contexts := now.contexts)
    && if (staged.signSeq || staged.verifySeq) && staged.scheme == TPM_ALG_MLDSA
       then now.contexts == staged.contexts[0 := staged.contexts[0].(def := Null)]
       else forall j :: 0 <= j < HASH_COUNT ==>
              now.contexts[j] ==
              if wentOn && (j == 0 || staged.eventSeq) && staged.contexts[j].kind == HASH_STATE_SMAC
              then Repaired(staged.contexts[j], process) else staged.contexts[j]
  }

  /** What slot `i` of an accepted blob becomes. Behind the first failure, unless
      the platform had failed before, slots keep what the blob has. */
  ghost predicate Arrived(staged: seq<Unit>, now: seq<Unit>, backend: Backend, wasFailing: bool,
                          crypto: map<nat, nat>, i: nat)
    requires i < |staged| == |now|
  {
    if !IsRunningImage(staged[i])
       || (!wasFailing && exists j :: 0 <= j < i && FailsAt(staged[j], backend, j)) then now[i] == staged[i]
    else
      now[i].Image?
      && if FailsAt(staged[i], backend, i)
         then LeftByFailure(staged[i].slot, now[i].slot, backend.process, wasFailing)
         else RebuiltFrom(staged[i].slot, now[i].slot, backend.process, crypto)
  }

  /** Whatever the code, an accepted blob has replaced every variable but the
      object slots by its piece of the payload when the import ends, and each slot
      is what the import made of its own piece. */
  lemma AcceptedWhateverTheCode(l: Library, payload: seq<Unit>, backend: Backend, failure: Failure)
    requires Shaped(l) && |payload| == Total(l.vars)
    requires forall id :: id in l.crypto ==> id < l.nextHandle
    ensures var after, pieces := Accept(l, payload, backend, failure).library, Cut(l.vars, payload);
            && |after.vars| == |pieces| && |after.vars[OBJECTS]| == |pieces[OBJECTS]|
            && (forall k :: 0 <= k < |pieces| && k != OBJECTS ==> after.vars[k] == pieces[k])
            && forall i :: 0 <= i < MAX_LOADED_OBJECTS ==>
                 Arrived(pieces[OBJECTS], after.vars[OBJECTS], backend, failure.inFailureMode, after.crypto, i)
  {
    FlushCreatesNothing(l, backend.process, MAX_LOADED_OBJECTS);
    var flushed := FlushUpTo(l, backend.process, MAX_LOADED_OBJECTS);
    var pieces := Cut(l.vars, payload);
    var s := Import(pieces[OBJECTS], flushed.crypto, flushed.nextHandle, failure, false);
    forall i | 0 <= i < MAX_LOADED_OBJECTS
      ensures Arrived(pieces[OBJECTS], Accept(l, payload, backend, failure).library.vars[OBJECTS], backend,
                      failure.inFailureMode, Accept(l, payload, backend, failure).library.crypto, i)
    {
      SlotArrives(s, backend, failure.inFailureMode, i, MAX_LOADED_OBJECTS);
    }
  }

  lemma {:induction false} FlushCreatesNothing(l: Library, process: nat, n: nat)
    requires |l.vars| == VARIABLE_COUNT && n <= |l.vars[OBJECTS]|
    ensures forall id :: id in FlushUpTo(l, process, n).crypto ==> id in l.crypto
    decreases n
  {
    if n > 0 {
      FlushCreatesNothing(l, process, n - 1);
    }
  }

  lemma {:induction false} SlotArrives(s: Import, backend: Backend, wasFailing: bool, i: nat, n: nat)
    requires i < n <= |s.memory| && wasFailing == s.failure.inFailureMode && !s.stopped
    requires forall id :: id in s.crypto ==> id < s.nextHandle
    ensures var r := ImportUpTo(s, backend, wasFailing, n);
            Arrived(s.memory, r.memory, backend, wasFailing, r.crypto, i)
    decreases n
  {
    var before := ImportUpTo(s, backend, wasFailing, n - 1);
    assert ImportUpTo(s, backend, wasFailing, n) == ImportSlot(before, backend, wasFailing, n - 1);
    ImportExtends(s, backend, wasFailing, n - 1);
    if i < n - 1 {
      SlotArrives(s, backend, wasFailing, i, n - 1);
      ArrivedStays(s.memory, before, backend, wasFailing, n - 1, i);
    } else {
      SlotArrivesNow(s, before, backend, wasFailing, i);
    }
  }

  lemma SlotArrivesNow(s: Import, before: Import, backend: Backend, wasFailing: bool, i: nat)
    requires i < |s.memory| && wasFailing == s.failure.inFailureMode && !s.stopped
    requires before == ImportUpTo(s, backend, wasFailing, i) && before.memory[i] == s.memory[i]
    ensures var r := ImportSlot(before, backend, wasFailing, i);
            Arrived(s.memory, r.memory, backend, wasFailing, r.crypto, i)
  {
    StoppedExactlyIf(s, backend, wasFailing, i);
    if before.stopped {
      assert ImportSlot(before, backend, wasFailing, i) == before;
    } else {
      SlotImported(before, backend, wasFailing, i);
    }
  }

  lemma StoppedExactlyIf(s: Import, backend: Backend, wasFailing: bool, i: nat)
    requires i < |s.memory| && wasFailing == s.failure.inFailureMode && !s.stopped
    ensures ImportUpTo(s, backend, wasFailing, i).stopped
            <==> !wasFailing && exists j :: 0 <= j < i && FailsAt(s.memory[j], backend, j)
  {
    FailureOfImport(s, backend, wasFailing, i);
    forall j | 0 <= j < i
      ensures Fails(s.memory[j], backend, j) <==> FailsAt(s.memory[j], backend, j)
    {
      FailsExactlyIf(s.memory[j], backend, j);
    }
  }

  lemma ArrivedStays(staged: seq<Unit>, before: Import, backend: Backend, wasFailing: bool, n: nat, i: nat)
    requires i < n < |staged| == |before.memory|
    requires forall id :: id in before.crypto ==> id < before.nextHandle
    requires Arrived(staged, before.memory, backend, wasFailing, before.crypto, i)
    ensures var r := ImportSlot(before, backend, wasFailing, n);
            Arrived(staged, r.memory, backend, wasFailing, r.crypto, i)
  {
    var r := ImportSlot(before, backend, wasFailing, n);
    assert r.memory[i] == before.memory[i];
    assert forall id :: id in before.crypto ==> id in r.crypto && r.crypto[id] == before.crypto[id];
  }

  lemma SlotImported(s: Import, backend: Backend, wasFailing: bool, i: nat)
    requires i < |s.memory| && !s.stopped
    ensures var r := ImportSlot(s, backend, wasFailing, i);
            if !IsRunningImage(s.memory[i]) then r.memory[i] == s.memory[i]
            else r.memory[i].Image?
                 && if FailsAt(s.memory[i], backend, i)
                    then LeftByFailure(s.memory[i].slot, r.memory[i].slot, backend.process, wasFailing)
                    else RebuiltFrom(s.memory[i].slot, r.memory[i].slot, backend.process, r.crypto)
  {
    FailsExactlyIf(s.memory[i], backend, i);
  }

  // ---------------------------------------------------------------- handle ownership

  function OwnedBy(memory: seq<Unit>, process: nat, crypto: map<nat, nat>, i: nat): Option<nat>
    requires i < |memory|
  {
    Owned(Slot(memory, i), process, crypto)
  }

  /** The handles that the first `n` slots own, in slot order. */
  function OwnedIds(memory: seq<Unit>, process: nat, crypto: map<nat, nat>, n: nat): seq<nat>
    requires n <= |memory|
    decreases n
  {
    if n == 0 then []
    else
      OwnedIds(memory, process, crypto, n - 1)
      + match OwnedBy(memory, process, crypto, n - 1)
        case None => []
        case Some(id) => [id]
  }

  predicate NoDuplicates(ids: seq<nat>) {
    forall i, j :: 0 <= i < j < |ids| ==> ids[i] != ids[j]
  }

  /** Live handles and owning slots correspond one to one: no two slots share a
      handle, and there is no live handle without its slot. */
  ghost predicate WellOwned(memory: seq<Unit>, process: nat, crypto: map<nat, nat>, nextHandle: nat) {
    && NoDuplicates(OwnedIds(memory, process, crypto, |memory|))
    && forall id :: id in crypto ==> id in OwnedIds(memory, process, crypto, |memory|) && id < nextHandle
  }

  /** Slot `i` runs a signing or verifying sequence under ML-DSA through handle `id`. */
  predicate RunsThrough(memory: seq<Unit>, process: nat, i: nat, id: nat)
    requires i < |memory|
  {
    && IsRunningImage(memory[i])
    && (memory[i].slot.signSeq || memory[i].slot.verifySeq) && memory[i].slot.scheme == TPM_ALG_MLDSA
    && memory[i].slot.contexts[0].def == Handle(process, id)
  }

  /** Some of the first `n` slots runs through handle `id`. */
  predicate IsRunThrough(memory: seq<Unit>, process: nat, id: nat, n: nat)
    requires n <= |memory|
  {
    exists i :: 0 <= i < n && RunsThrough(memory, process, i, id)
  }

  /** No two of the first `n` slots run through one live handle. */
  predicate Unshared(memory: seq<Unit>, process: nat, crypto: map<nat, nat>, n: nat)
    requires n <= |memory|
  {
    forall id, i, j :: id in crypto && 0 <= i < j < n ==>
      !(RunsThrough(memory, process, i, id) && RunsThrough(memory, process, j, id))
  }

  /** Ownership in order, slot by slot: every live handle is that of exactly one slot. */
  lemma WellOwnedExactlyIf(memory: seq<Unit>, process: nat, crypto: map<nat, nat>, nextHandle: nat)
    ensures WellOwned(memory, process, crypto, nextHandle)
            <==> && (forall id :: id in crypto ==>
                       id < nextHandle && IsRunThrough(memory, process, id, |memory|))
                 && Unshared(memory, process, crypto, |memory|)
  {
    OwnedIdsAreRunThrough(memory, process, crypto, |memory|);
    OwnedIdsAreUnshared(memory, process, crypto, |memory|);
  }

  lemma {:induction false} OwnedIdsAreRunThrough(memory: seq<Unit>, process: nat, crypto: map<nat, nat>, n: nat)
    requires n <= |memory|
    ensures forall id :: id in OwnedIds(memory, process, crypto, n)
                         <==> id in crypto && IsRunThrough(memory, process, id, n)
    decreases n
  {
    if n > 0 {
      OwnedIdsAreRunThrough(memory, process, crypto, n - 1);
      OwnsWhatItRunsThrough(memory, process, crypto, n - 1);
      var owned := OwnedBy(memory, process, crypto, n - 1);
      assert owned.Some? ==> RunsThrough(memory, process, n - 1, owned.value);
    }
  }

  lemma {:induction false} OwnedIdsAreUnshared(memory: seq<Unit>, process: nat, crypto: map<nat, nat>, n: nat)
    requires n <= |memory|
    ensures NoDuplicates(OwnedIds(memory, process, crypto, n)) <==> Unshared(memory, process, crypto, n)
    decreases n
  {
    if n > 0 {
      OwnedIdsAreUnshared(memory, process, crypto, n - 1);
      var ids, owned := OwnedIds(memory, process, crypto, n - 1), OwnedBy(memory, process, crypto, n - 1);
      if owned.Some? {
        OwnedIdsAreRunThrough(memory, process, crypto, n - 1);
        LastIsNew(ids, owned.value);
        UnsharedStep(memory, process, crypto, n - 1, owned.value);
      } else {
        assert OwnedIds(memory, process, crypto, n) == ids;
        UnsharedKept(memory, process, crypto, n - 1);
      }
    }
  }

  lemma UnsharedKept(memory: seq<Unit>, process: nat, crypto: map<nat, nat>, n: nat)
    requires n < |memory| && OwnedBy(memory, process, crypto, n) == None
    ensures Unshared(memory, process, crypto, n + 1) <==> Unshared(memory, process, crypto, n)
  {
    OwnsWhatItRunsThrough(memory, process, crypto, n);
    assert forall id :: id in crypto ==> !RunsThrough(memory, process, n, id);
  }

  lemma UnsharedStep(memory: seq<Unit>, process: nat, crypto: map<nat, nat>, n: nat, id: nat)
    requires n < |memory| && id in crypto && RunsThrough(memory, process, n, id)
    ensures Unshared(memory, process, crypto, n + 1)
            <==> && Unshared(memory, process, crypto, n)
                 && !IsRunThrough(memory, process, id, n)
  {
    assert forall other :: RunsThrough(memory, process, n, other) ==> other == id;
  }

  lemma OwnsWhatItRunsThrough(memory: seq<Unit>, process: nat, crypto: map<nat, nat>, i: nat)
    requires i < |memory|
    ensures forall id :: OwnedBy(memory, process, crypto, i) == Some(id)
                         <==> id in crypto && RunsThrough(memory, process, i, id)
  {
  }

  lemma {:induction false} OwnedIdsAreLive(memory: seq<Unit>, process: nat, crypto: map<nat, nat>, n: nat)
    requires n <= |memory|
    ensures forall id :: id in OwnedIds(memory, process, crypto, n) ==> id in crypto
    decreases n
  {
    if n > 0 {
      OwnedIdsAreLive(memory, process, crypto, n - 1);
    }
  }

  lemma {:induction false} SameOwnedIds(a: Import, b: Import, process: nat, n: nat)
    requires n <= |a.memory| == |b.memory|
    requires forall i :: 0 <= i < n ==>
               OwnedBy(a.memory, process, a.crypto, i) == OwnedBy(b.memory, process, b.crypto, i)
    ensures OwnedIds(a.memory, process, a.crypto, n) == OwnedIds(b.memory, process, b.crypto, n)
    decreases n
  {
    if n > 0 {
      SameOwnedIds(a, b, process, n - 1);
    }
  }

  lemma LastIsNew(ids: seq<nat>, id: nat)
    ensures NoDuplicates(ids + [id]) <==> NoDuplicates(ids) && id !in ids
  {
    var more := ids + [id];
    if NoDuplicates(more) {
      forall i | 0 <= i < |ids|
        ensures ids[i] != id
      {
        assert more[i] != more[|ids|];
      }
      forall i, j | 0 <= i < j < |ids|
        ensures ids[i] != ids[j]
      {
        assert more[i] != more[j];
      }
    }
  }

  /** Flushing releases what the slots own, each handle once, and nothing else. */
  lemma {:induction false} FlushReleases(l: Library, process: nat, n: nat)
    requires |l.vars| == VARIABLE_COUNT && n <= |l.vars[OBJECTS]|
    requires NoDuplicates(OwnedIds(l.vars[OBJECTS], process, l.crypto, n))
    ensures FlushedTo(l, FlushUpTo(l, process, n), process, n)
    decreases n
  {
    if n > 0 {
      var owned := OwnedBy(l.vars[OBJECTS], process, l.crypto, n - 1);
      if owned.Some? {
        LastIsNew(OwnedIds(l.vars[OBJECTS], process, l.crypto, n - 1), owned.value);
      } else {
        assert OwnedIds(l.vars[OBJECTS], process, l.crypto, n) == OwnedIds(l.vars[OBJECTS], process, l.crypto, n - 1);
      }
      FlushReleases(l, process, n - 1);
      FlushStep(l, FlushUpTo(l, process, n - 1), process, n - 1);
    }
  }

  ghost predicate FlushedTo(l: Library, flushed: Library, process: nat, n: nat)
    requires |l.vars| == |flushed.vars| == VARIABLE_COUNT
    requires n <= |l.vars[OBJECTS]| == |flushed.vars[OBJECTS]|
  {
    var ids := OwnedIds(l.vars[OBJECTS], process, l.crypto, n);
    && flushed.released == l.released + ids
    && (forall k :: n <= k < |l.vars[OBJECTS]| ==> flushed.vars[OBJECTS][k] == l.vars[OBJECTS][k])
    && (forall id :: id in flushed.crypto <==> id in l.crypto && id !in ids)
  }

  lemma FlushStep(l: Library, before: Library, process: nat, n: nat)
    requires |l.vars| == |before.vars| == VARIABLE_COUNT
    requires n < |l.vars[OBJECTS]| == |before.vars[OBJECTS]|
    requires FlushedTo(l, before, process, n)
    requires OwnedBy(l.vars[OBJECTS], process, l.crypto, n).Some? ==>
               OwnedBy(l.vars[OBJECTS], process, l.crypto, n).value !in OwnedIds(l.vars[OBJECTS], process, l.crypto, n)
    ensures FlushedTo(l, Flush(before, process, n), process, n + 1)
  {
    var owned := OwnedBy(l.vars[OBJECTS], process, l.crypto, n);
    var after := Flush(before, process, n);
    match owned {
      case None =>
        assert after.released == before.released && after.crypto == before.crypto;
      case Some(id) =>
        assert after.released == before.released + [id] && after.crypto == before.crypto - {id};
    }
  }

  /** From an empty crypto state, the import creates one fresh handle for each
      running ML-DSA sequence it can rebuild, and no other. */
  lemma {:induction false} ImportOwns(s: Import, backend: Backend, wasFailing: bool, n: nat)
    requires n <= |s.memory| && s.crypto == map[]
    requires !ImportUpTo(s, backend, wasFailing, n).stopped
    ensures Rebuilt(s, ImportUpTo(s, backend, wasFailing, n), backend, n)
    decreases n
  {
    if n == 0 {
      NothingRebuilt(s, backend);
    } else {
      var before := ImportUpTo(s, backend, wasFailing, n - 1);
      assert ImportUpTo(s, backend, wasFailing, n) == ImportSlot(before, backend, wasFailing, n - 1);
      ImportOwns(s, backend, wasFailing, n - 1);
      RebuiltStep(s, before, backend, wasFailing, n - 1);
    }
  }

  lemma NothingRebuilt(s: Import, backend: Backend)
    requires s.crypto == map[]
    ensures Rebuilt(s, s, backend, 0)
  {
  }

  /** The first `n` slots have been handled: the rebuilt ML-DSA sequences among
      them and the live handles correspond one to one, and all handles are new. */
  ghost predicate Rebuilt(s: Import, r: Import, backend: Backend, n: nat)
    requires n <= |s.memory| == |r.memory|
  {
    && HandlesOwned(s, r, backend, n)
    && SlotsSettled(s, r, backend, n)
    && forall k :: n <= k < |s.memory| ==> r.memory[k] == s.memory[k]
  }

  ghost predicate HandlesOwned(s: Import, r: Import, backend: Backend, n: nat)
    requires n <= |s.memory| == |r.memory|
  {
    var ids := OwnedIds(r.memory, backend.process, r.crypto, n);
    && s.nextHandle <= r.nextHandle && NoDuplicates(ids)
    && forall id :: id in r.crypto ==> id in ids && s.nextHandle <= id < r.nextHandle
  }

  predicate SlotsSettled(s: Import, r: Import, backend: Backend, n: nat)
    requires n <= |s.memory| == |r.memory|
  {
    forall i :: 0 <= i < n ==>
      && Settled(Slot(r.memory, i), backend.process, r.crypto)
      && (OwnedBy(r.memory, backend.process, r.crypto, i).Some? <==> Rebuildable(s.memory[i], backend, i))
  }

  predicate Rebuildable(u: Unit, backend: Backend, i: nat) {
    IsRunning(AsObject(u)) && IsMlDsa(AsObject(u)) && !Fails(u, backend, i)
  }

  lemma RebuiltStep(s: Import, before: Import, backend: Backend, wasFailing: bool, n: nat)
    requires n < |s.memory| == |before.memory| && Rebuilt(s, before, backend, n)
    requires !before.stopped && !ImportSlot(before, backend, wasFailing, n).stopped
    ensures Rebuilt(s, ImportSlot(before, backend, wasFailing, n), backend, n + 1)
  {
    var r := ImportSlot(before, backend, wasFailing, n);
    assert before.memory[n] == s.memory[n];
    SlotOwns(before, backend, wasFailing, n);
    SettledStep(s, before, backend, wasFailing, n);
    OwnersExtend(s, before, r, backend, n);
  }

  lemma SettledStep(s: Import, before: Import, backend: Backend, wasFailing: bool, n: nat)
    requires n < |s.memory| == |before.memory| && SlotsSettled(s, before, backend, n)
    requires before.memory[n] == s.memory[n]
    requires forall id :: id in before.crypto ==> id < before.nextHandle
    requires !before.stopped && !ImportSlot(before, backend, wasFailing, n).stopped
    ensures var r := ImportSlot(before, backend, wasFailing, n);
            && SlotsSettled(s, r, backend, n + 1)
            && forall i :: 0 <= i < n ==>
                 OwnedBy(r.memory, backend.process, r.crypto, i) == OwnedBy(before.memory, backend.process, before.crypto, i)
  {
    SlotOwns(before, backend, wasFailing, n);
    forall i | 0 <= i < n
      ensures var r := ImportSlot(before, backend, wasFailing, n);
              && Settled(Slot(r.memory, i), backend.process, r.crypto)
              && OwnedBy(r.memory, backend.process, r.crypto, i) == OwnedBy(before.memory, backend.process, before.crypto, i)
    {
      SlotStays(before, backend, wasFailing, n, i);
    }
  }

  lemma OwnersExtend(s: Import, before: Import, r: Import, backend: Backend, n: nat)
    requires n < |s.memory| == |before.memory| == |r.memory| && HandlesOwned(s, before, backend, n)
    requires forall i :: 0 <= i < n ==>
               OwnedBy(r.memory, backend.process, r.crypto, i) == OwnedBy(before.memory, backend.process, before.crypto, i)
    requires OwnedBy(r.memory, backend.process, r.crypto, n) in {None, Some(before.nextHandle)}
    requires before.nextHandle <= r.nextHandle
    requires forall id :: id in r.crypto ==>
               id < r.nextHandle
               && (id in before.crypto || OwnedBy(r.memory, backend.process, r.crypto, n) == Some(id))
    ensures HandlesOwned(s, r, backend, n + 1)
  {
    var ids := OwnedIds(before.memory, backend.process, before.crypto, n);
    SameOwnedIds(r, before, backend.process, n);
    OwnedIdsAreLive(before.memory, backend.process, before.crypto, n);
    LastIsNew(ids, before.nextHandle);
  }

  /** A running ML-DSA sequence that can be rebuilt takes the next handle; any
      other slot takes none. */
  lemma SlotOwns(s: Import, backend: Backend, wasFailing: bool, n: nat)
    requires n < |s.memory| && forall id :: id in s.crypto ==> id < s.nextHandle
    requires !s.stopped && !ImportSlot(s, backend, wasFailing, n).stopped
    ensures var r := ImportSlot(s, backend, wasFailing, n);
            && OwnedBy(r.memory, backend.process, r.crypto, n)
               == (if Rebuildable(s.memory[n], backend, n) then Some(s.nextHandle) else None)
            && (forall id :: id in r.crypto ==>
                  id in s.crypto || (id == s.nextHandle && OwnedBy(r.memory, backend.process, r.crypto, n) == Some(id)))
            && s.nextHandle <= r.nextHandle
            && (forall id :: id in r.crypto ==> id < r.nextHandle)
            && Settled(Slot(r.memory, n), backend.process, r.crypto)
  {
  }

  /** A slot handled earlier keeps the handle it owns, or goes on owning none. */
  lemma SlotStays(s: Import, backend: Backend, wasFailing: bool, n: nat, i: nat)
    requires i < n < |s.memory|
    requires forall id :: id in s.crypto ==> id < s.nextHandle
    requires Settled(Slot(s.memory, i), backend.process, s.crypto)
    ensures var r := ImportSlot(s, backend, wasFailing, n);
            && OwnedBy(r.memory, backend.process, r.crypto, i) == OwnedBy(s.memory, backend.process, s.crypto, i)
            && Settled(Slot(r.memory, i), backend.process, r.crypto)
  {
  }

  /** Owns a live handle, or holds none that a later import could bring to life. */
  predicate Settled(o: Object, process: nat, crypto: map<nat, nat>) {
    IsRunning(o) && IsMlDsa(o) && HandleOf(o).Handle? ==> Owned(o, process, crypto).Some?
  }

  /** Handle conservation, outgoing: an accepted blob releases every handle that
      was live, each exactly once, before its only reference is overwritten. */
  lemma EveryHandleIsReleased(l: Library, payload: seq<Unit>, backend: Backend, failure: Failure)
    requires Shaped(l) && |payload| == Total(l.vars)
    requires WellOwned(l.vars[OBJECTS], backend.process, l.crypto, l.nextHandle)
    ensures Accept(l, payload, backend, failure).library.released
         == l.released + OwnedIds(l.vars[OBJECTS], backend.process, l.crypto, MAX_LOADED_OBJECTS)
    ensures var ids := OwnedIds(l.vars[OBJECTS], backend.process, l.crypto, MAX_LOADED_OBJECTS);
            NoDuplicates(ids) && forall id :: id in ids <==> id in l.crypto
  {
    FlushEmpties(l, backend.process);
  }

  lemma FlushEmpties(l: Library, process: nat)
    requires |l.vars| == VARIABLE_COUNT && |l.vars[OBJECTS]| == MAX_LOADED_OBJECTS
    requires WellOwned(l.vars[OBJECTS], process, l.crypto, l.nextHandle)
    ensures var ids := OwnedIds(l.vars[OBJECTS], process, l.crypto, MAX_LOADED_OBJECTS);
            && FlushUpTo(l, process, MAX_LOADED_OBJECTS).released == l.released + ids
            && FlushUpTo(l, process, MAX_LOADED_OBJECTS).crypto == map[]
            && NoDuplicates(ids) && forall id :: id in ids <==> id in l.crypto
  {
    var memory := l.vars[OBJECTS];
    OwnedIdsAreLive(memory, process, l.crypto, MAX_LOADED_OBJECTS);
    FlushReleases(l, process, MAX_LOADED_OBJECTS);
    assert forall id :: id !in FlushUpTo(l, process, MAX_LOADED_OBJECTS).crypto;
  }

  /** Handle conservation, incoming: a successful restore leaves exactly one
      fresh, unshared handle for each ML-DSA sequence it rebuilt, and no other. */
  lemma EveryHandleIsFresh(l: Library, payload: seq<Unit>, backend: Backend, failure: Failure)
    requires Shaped(l) && |payload| == Total(l.vars)
    requires WellOwned(l.vars[OBJECTS], backend.process, l.crypto, l.nextHandle)
    requires Accept(l, payload, backend, failure).code == 0
    ensures var after := Accept(l, payload, backend, failure).library;
            && WellOwned(after.vars[OBJECTS], backend.process, after.crypto, after.nextHandle)
            && (forall id :: id in after.crypto ==> id >= l.nextHandle)
            && forall i :: 0 <= i < MAX_LOADED_OBJECTS ==>
                 (OwnedBy(after.vars[OBJECTS], backend.process, after.crypto, i).Some?
                  <==> Rebuildable(Cut(l.vars, payload)[OBJECTS][i], backend, i))
  {
    FlushEmpties(l, backend.process);
    var flushed := FlushUpTo(l, backend.process, MAX_LOADED_OBJECTS);
    var s := Import(Cut(l.vars, payload)[OBJECTS], flushed.crypto, flushed.nextHandle, failure, false);
    ImportOwns(s, backend, failure.inFailureMode, MAX_LOADED_OBJECTS);
  }

  /** No slot that runs ML-DSA carries a handle of any process, as in every blob
      saved from a resumable library. */
  predicate HandleFree(memory: seq<Unit>) {
    forall u :: u in memory && IsRunning(AsObject(u)) && IsMlDsa(AsObject(u)) ==> !HandleOf(AsObject(u)).Handle?
  }

  lemma {:induction false} UnownedTail(memory: seq<Unit>, process: nat, crypto: map<nat, nat>, n: nat, m: nat)
    requires n <= m <= |memory|
    requires forall k :: n <= k < m ==> OwnedBy(memory, process, crypto, k) == None
    ensures OwnedIds(memory, process, crypto, m) == OwnedIds(memory, process, crypto, n)
    decreases m
  {
    if n < m {
      UnownedTail(memory, process, crypto, n, m - 1);
    }
  }

  /** Ownership is kept through the import loop wherever it stops. */
  lemma {:induction false} ImportKeepsOwnership(s: Import, backend: Backend, wasFailing: bool, n: nat)
    requires n <= |s.memory| && s.crypto == map[] && HandleFree(s.memory) && !s.stopped
    ensures var r := ImportUpTo(s, backend, wasFailing, n);
            && WellOwned(r.memory, backend.process, r.crypto, r.nextHandle)
            && s.nextHandle <= r.nextHandle
            && forall id :: id in r.crypto ==> id >= s.nextHandle
    decreases n
  {
    var r := ImportUpTo(s, backend, wasFailing, n);
    if !r.stopped {
      ImportOwns(s, backend, wasFailing, n);
      TailOwnsNothing(s, r, backend, n);
    } else {
      var before := ImportUpTo(s, backend, wasFailing, n - 1);
      if before.stopped {
        ImportKeepsOwnership(s, backend, wasFailing, n - 1);
      } else {
        ImportOwns(s, backend, wasFailing, n - 1);
        StoppedSlotOwnsNothing(s, before, backend, wasFailing, n - 1);
      }
    }
  }

  lemma TailOwnsNothing(s: Import, r: Import, backend: Backend, n: nat)
    requires n <= |s.memory| == |r.memory| && HandleFree(s.memory)
    requires HandlesOwned(s, r, backend, n)
    requires forall k :: n <= k < |s.memory| ==> r.memory[k] == s.memory[k]
    ensures WellOwned(r.memory, backend.process, r.crypto, r.nextHandle)
  {
    forall k | n <= k < |r.memory|
      ensures OwnedBy(r.memory, backend.process, r.crypto, k) == None
    {
      assert s.memory[k] in s.memory;
    }
    UnownedTail(r.memory, backend.process, r.crypto, n, |r.memory|);
  }

  /** The slot at which the import stops owns nothing, nor do those behind it. */
  lemma StoppedSlotOwnsNothing(s: Import, before: Import, backend: Backend, wasFailing: bool, n: nat)
    requires n < |s.memory| == |before.memory| && HandleFree(s.memory) && Rebuilt(s, before, backend, n)
    requires !before.stopped && ImportSlot(before, backend, wasFailing, n).stopped
    ensures var r := ImportSlot(before, backend, wasFailing, n);
            && WellOwned(r.memory, backend.process, r.crypto, r.nextHandle)
            && r.nextHandle == before.nextHandle && r.crypto == before.crypto
  {
    var r := ImportSlot(before, backend, wasFailing, n);
    forall k | n <= k < |r.memory|
      ensures OwnedBy(r.memory, backend.process, r.crypto, k) == None
    {
      assert s.memory[k] in s.memory;
    }
    UnownedTail(r.memory, backend.process, r.crypto, n, |r.memory|);
    SameOwnedIds(r, before, backend.process, n);
  }

  /** Handle conservation, whatever the code: after a blob without handles was
      accepted, live handles and the slots owning them correspond one to one and
      are new, also when the import failed half-way. The next restore starts from
      ownership in order. */
  lemma OwnershipWhateverTheCode(l: Library, payload: seq<Unit>, backend: Backend, failure: Failure)
    requires Shaped(l) && |payload| == Total(l.vars)
    requires WellOwned(l.vars[OBJECTS], backend.process, l.crypto, l.nextHandle)
    requires HandleFree(Cut(l.vars, payload)[OBJECTS])
    ensures var after := Accept(l, payload, backend, failure).library;
            && WellOwned(after.vars[OBJECTS], backend.process, after.crypto, after.nextHandle)
            && forall id :: id in after.crypto ==> id >= l.nextHandle
  {
    FlushEmpties(l, backend.process);
    var flushed := FlushUpTo(l, backend.process, MAX_LOADED_OBJECTS);
    var s := Import(Cut(l.vars, payload)[OBJECTS], flushed.crypto, flushed.nextHandle, failure, false);
    ImportKeepsOwnership(s, backend, failure.inFailureMode, MAX_LOADED_OBJECTS);
  }

  // ---------------------------------------------------------------- moving between processes

  /** A slot the import can rebuild is rebuilt from its own staged form, with a
      handle that later slots do not disturb. */
  lemma {:induction false} ImportedSlot(s: Import, backend: Backend, wasFailing: bool, i: nat, n: nat)
    requires i < n <= |s.memory| && !ImportUpTo(s, backend, wasFailing, n).stopped
    requires forall id :: id in s.crypto ==> id < s.nextHandle
    requires !Fails(s.memory[i], backend, i)
    ensures SlotRebuilt(s, ImportUpTo(s, backend, wasFailing, n), backend.process, i,
                        ImportUpTo(s, backend, wasFailing, i).nextHandle)
    ensures ImportUpTo(s, backend, wasFailing, i).nextHandle <= ImportUpTo(s, backend, wasFailing, n).nextHandle
    decreases n
  {
    ImportExtends(s, backend, wasFailing, n - 1);
    var before := ImportUpTo(s, backend, wasFailing, n - 1);
    if i < n - 1 {
      ImportedSlot(s, backend, wasFailing, i, n - 1);
      SlotKept(s, before, backend, wasFailing, n - 1, i, ImportUpTo(s, backend, wasFailing, i).nextHandle);
    }
  }

  predicate SlotRebuilt(s: Import, r: Import, process: nat, i: nat, id: nat)
    requires i < |s.memory| == |r.memory|
  {
    var o := Slot(s.memory, i);
    && r.memory[i] == (if IsRunning(o) then Image(Restored(o, process, id, false)) else s.memory[i])
    && (IsRunning(o) && IsMlDsa(o) ==> HandleOf(o).Serialized? && id in r.crypto && r.crypto[id] == HandleOf(o).state)
  }

  lemma SlotKept(s: Import, before: Import, backend: Backend, wasFailing: bool, n: nat, i: nat, id: nat)
    requires i < n < |s.memory| == |before.memory| && SlotRebuilt(s, before, backend.process, i, id)
    requires forall h :: h in before.crypto ==> h < before.nextHandle
    ensures SlotRebuilt(s, ImportSlot(before, backend, wasFailing, n), backend.process, i, id)
  {
  }

  lemma {:induction false} ImportExtends(s: Import, backend: Backend, wasFailing: bool, n: nat)
    requires n <= |s.memory|
    requires forall id :: id in s.crypto ==> id < s.nextHandle
    ensures var r := ImportUpTo(s, backend, wasFailing, n);
            && (forall id :: id in r.crypto ==> id < r.nextHandle)
            && forall k :: n <= k < |s.memory| ==> r.memory[k] == s.memory[k]
    decreases n
  {
    if n > 0 {
      ImportExtends(s, backend, wasFailing, n - 1);
    }
  }

  /** Every running sequence can be resumed by following its own pointers. */
  predicate Resumable(l: Library, process: nat)
    requires Shaped(l)
  {
    forall i :: 0 <= i < MAX_LOADED_OBJECTS && Slot(l.vars[OBJECTS], i).occupied && Slot(l.vars[OBJECTS], i).sequence ==>
      RunsIn(Slot(l.vars[OBJECTS], i), process, l.crypto)
  }

  /** In a saved blob every running sequence is flattened, and every other slot is as it was. */
  lemma SavedSlot(l: Library, process: nat, i: nat)
    requires Shaped(l) && Resumable(l, process) && i < MAX_LOADED_OBJECTS
    ensures var at := HEADER_SIZE + Offset(l.vars, OBJECTS) + i;
            var o := Slot(l.vars[OBJECTS], i);
            && at < |Blob(l)|
            && if o.occupied && o.sequence
               then Blob(l)[at].Image? && Flattened(o, l.crypto, Blob(l)[at].slot)
               else Blob(l)[at] == l.vars[OBJECTS][i]
  {
    BlobLayout(l, OBJECTS);
    var from := HEADER_SIZE + Offset(l.vars, OBJECTS);
    assert Blob(l)[from + i] == Blob(l)[from..from + MAX_LOADED_OBJECTS][i];
    var o := Slot(l.vars[OBJECTS], i);
    if o.occupied && o.sequence {
      UsableExactlyIf(o, process, l.crypto);
      ExportIsImportable(o, process, l.crypto);
    }
  }

  /** A blob saved by the same build is never rejected, whichever process saved
      it; only a crypto backend that refuses a sequence can fail the restore. */
  lemma SavedBlobIsAccepted(source: Library, from: nat, target: Library, backend: Backend, failure: Failure)
    requires Shaped(source) && Shaped(target) && SameSizes(target.vars, source.vars)
    requires Resumable(source, from)
    ensures Apply(target, Blob(source), |Blob(source)|, backend, failure).code in {0, 4}
    ensures Apply(target, Blob(source), |Blob(source)|, backend, failure).code == 4
            <==> && !failure.inFailureMode
                 && exists i :: 0 <= i < MAX_LOADED_OBJECTS && IsRunning(Slot(source.vars[OBJECTS], i)) && i in backend.refused
  {
    BlobCuts(source, target);
    RestoreCodes(target, Blob(source), backend, failure);
    forall i | 0 <= i < MAX_LOADED_OBJECTS
      ensures Fails(Slots(target, Blob(source))[i], backend, i)
              <==> IsRunning(Slot(source.vars[OBJECTS], i)) && i in backend.refused
    {
      var o := Slot(source.vars[OBJECTS], i);
      if IsRunning(o) {
        UsableExactlyIf(o, from, source.crypto);
        ExportIsImportable(o, from, source.crypto);
      }
    }
  }

  /** What this build saves carries no handle, so ownership is in order after any
      restore of it, code 4 included. */
  lemma SavedBlobKeepsOwnership(source: Library, from: nat, target: Library, backend: Backend, failure: Failure)
    requires Shaped(source) && Shaped(target) && SameSizes(target.vars, source.vars)
    requires Resumable(source, from)
    requires WellOwned(target.vars[OBJECTS], backend.process, target.crypto, target.nextHandle)
    ensures var after := Apply(target, Blob(source), |Blob(source)|, backend, failure).library;
            WellOwned(after.vars[OBJECTS], backend.process, after.crypto, after.nextHandle)
  {
    BlobCuts(source, target);
    var saved, payload := SavedVars(source)[OBJECTS], Blob(source)[HEADER_SIZE..];
    forall u | u in saved && IsRunning(AsObject(u)) && IsMlDsa(AsObject(u))
      ensures !HandleOf(AsObject(u)).Handle?
    {
      var i :| 0 <= i < |saved| && saved[i] == u;
      var o := Slot(source.vars[OBJECTS], i);
      if IsRunning(o) {
        UsableExactlyIf(o, from, source.crypto);
        ExportIsImportable(o, from, source.crypto);
      }
    }
    assert Blob(source)[HEADER_SIZE..|Blob(source)|] == payload;
    OwnershipWhateverTheCode(target, payload, backend, failure);
  }

  lemma BlobCuts(source: Library, target: Library)
    requires Shaped(source) && Shaped(target) && SameSizes(target.vars, source.vars)
    ensures |Blob(source)| == RequiredSize(target) && Blob(source)[..HEADER_SIZE] == HEADER
    ensures Cut(target.vars, Blob(source)[HEADER_SIZE..]) == SavedVars(source)
  {
    SameOffsets(target.vars, source.vars);
    assert Blob(source)[HEADER_SIZE..] == Concat(SavedVars(source));
    CutOfConcat(target.vars, SavedVars(source));
  }

  /** Where the backend refuses nothing, a saved blob is applied in full. */
  lemma SavedBlobIsApplied(source: Library, from: nat, target: Library, backend: Backend, failure: Failure)
    requires Shaped(source) && Shaped(target) && SameSizes(target.vars, source.vars)
    requires Resumable(source, from) && backend.refused == {}
    ensures |Blob(source)| == RequiredSize(target)
    ensures var applied := Apply(target, Blob(source), |Blob(source)|, backend, failure);
            && applied.code == 0 && applied.failure == failure
            && applied == Accept(target, Blob(source)[HEADER_SIZE..], backend, failure)
  {
    BlobCuts(source, target);
    SavedBlobIsAccepted(source, from, target, backend, failure);
    RestoreCodes(target, Blob(source), backend, failure);
    assert Blob(source)[HEADER_SIZE..|Blob(source)|] == Blob(source)[HEADER_SIZE..];
  }

  /** Cross-process restore: every sequence that ran in the saving process runs
      on in the restoring one, from the same logical state and through the
      restoring process's pointers and handles only; everything else saved
      arrives unit for unit. */
  lemma CrossProcessRestore(source: Library, from: nat, target: Library, backend: Backend, failure: Failure)
    requires Shaped(source) && Shaped(target) && SameSizes(target.vars, source.vars)
    requires Resumable(source, from) && backend.refused == {}
    requires WellOwned(target.vars[OBJECTS], backend.process, target.crypto, target.nextHandle)
    ensures var applied := Apply(target, Blob(source), |Blob(source)|, backend, failure);
            && applied.code == 0 && applied.failure == failure
            && Moved(source, from, applied.library, backend.process)
  {
    var payload := Blob(source)[HEADER_SIZE..];
    SavedBlobIsApplied(source, from, target, backend, failure);
    BlobCuts(source, target);
    EveryHandleIsFresh(target, payload, backend, failure);
    FlushEmpties(target, backend.process);
    forall i | 0 <= i < MAX_LOADED_OBJECTS
      ensures SlotMoved(source, from, Accept(target, payload, backend, failure).library, backend.process, i)
    {
      MoveSlot(source, from, target, backend, failure, i);
    }
    AcceptKeepsShape(target, payload, backend, failure);
    SameRequired(source, target);
  }

  lemma SameRequired(a: Library, b: Library)
    requires Shaped(a) && Shaped(b) && SameSizes(a.vars, b.vars)
    ensures RequiredSize(a) == RequiredSize(b)
  {
    SameOffsets(a.vars, b.vars);
  }

  /** The saved state has arrived whole, and is fit to be saved and moved again. */
  ghost predicate Moved(source: Library, from: nat, after: Library, to: nat) {
    && Shaped(source) && Shaped(after) && RequiredSize(after) == RequiredSize(source)
    && WellOwned(after.vars[OBJECTS], to, after.crypto, after.nextHandle)
    && (forall k :: 0 <= k < VARIABLE_COUNT && k != OBJECTS ==> after.vars[k] == source.vars[k])
    && forall i :: 0 <= i < MAX_LOADED_OBJECTS ==> SlotMoved(source, from, after, to, i)
  }

  /** A moved library can itself be saved and moved on. */
  lemma MovedIsResumable(source: Library, from: nat, after: Library, to: nat)
    requires Moved(source, from, after, to) && Resumable(source, from)
    ensures Resumable(after, to)
  {
    forall i | 0 <= i < MAX_LOADED_OBJECTS && IsRunning(Slot(after.vars[OBJECTS], i))
      ensures RunsIn(Slot(after.vars[OBJECTS], i), to, after.crypto)
    {
      assert SlotMoved(source, from, after, to, i);
    }
  }

  lemma AcceptKeepsShape(l: Library, payload: seq<Unit>, backend: Backend, failure: Failure)
    requires Shaped(l) && |payload| == Total(l.vars)
    ensures Shaped(Accept(l, payload, backend, failure).library)
    ensures RequiredSize(Accept(l, payload, backend, failure).library) == RequiredSize(l)
  {
    var after := Accept(l, payload, backend, failure).library;
    SameOffsets(after.vars, l.vars);
  }

  predicate SlotMoved(source: Library, from: nat, after: Library, to: nat, i: nat)
    requires |source.vars| == |after.vars| == VARIABLE_COUNT
    requires i < |source.vars[OBJECTS]| && i < |after.vars[OBJECTS]|
  {
    var before, now := Slot(source.vars[OBJECTS], i), Slot(after.vars[OBJECTS], i);
    if !(before.occupied && before.sequence) then after.vars[OBJECTS][i] == source.vars[OBJECTS][i]
    else && after.vars[OBJECTS][i] == Image(now)
         && Carried(before, source.crypto, now, to, after.crypto)
         && MeaningOf(now, to, after.crypto) == MeaningOf(before, from, source.crypto)
  }

  lemma MoveSlot(source: Library, from: nat, target: Library, backend: Backend, failure: Failure, i: nat)
    requires Shaped(source) && Shaped(target) && SameSizes(target.vars, source.vars)
    requires Resumable(source, from) && backend.refused == {} && i < MAX_LOADED_OBJECTS
    requires Total(target.vars) == |Blob(source)| - HEADER_SIZE
    requires FlushUpTo(target, backend.process, MAX_LOADED_OBJECTS).crypto == map[]
    requires Accept(target, Blob(source)[HEADER_SIZE..], backend, failure).code == 0
    ensures SlotMoved(source, from, Accept(target, Blob(source)[HEADER_SIZE..], backend, failure).library,
                      backend.process, i)
  {
    BlobCuts(source, target);
    var flushed := FlushUpTo(target, backend.process, MAX_LOADED_OBJECTS);
    var s := Import(SavedVars(source)[OBJECTS], flushed.crypto, flushed.nextHandle, failure, false);
    var before := Slot(source.vars[OBJECTS], i);
    if IsRunning(before) {
      UsableExactlyIf(before, from, source.crypto);
      ExportIsImportable(before, from, source.crypto);
    }
    ImportedSlot(s, backend, failure.inFailureMode, i, MAX_LOADED_OBJECTS);
    if IsRunning(before) {
      var id := ImportUpTo(s, backend, failure.inFailureMode, i).nextHandle;
      var r := ImportUpTo(s, backend, failure.inFailureMode, MAX_LOADED_OBJECTS);
      MeaningSurvives(before, from, source.crypto, backend.process, id, r.crypto);
    }
  }

  // ---------------------------------------------------------------- the other round trip

  /** With no running sequence in it, an accepted blob is what the library saves next. */
  lemma ApplyThenGet(l: Library, blob: seq<Unit>, backend: Backend, failure: Failure)
    requires Shaped(l) && |blob| == RequiredSize(l) && blob[..HEADER_SIZE] == HEADER
    requires forall i :: 0 <= i < MAX_LOADED_OBJECTS ==> !IsRunning(Slot(Slots(l, blob), i))
    ensures var applied := Apply(l, blob, |blob|, backend, failure);
            applied.code == 0 && Shaped(applied.library) && Blob(applied.library) == blob
  {
    var payload := blob[HEADER_SIZE..];
    assert blob[HEADER_SIZE..|blob|] == payload;
    var vars := Cut(l.vars, payload);
    var flushed := FlushUpTo(l, backend.process, MAX_LOADED_OBJECTS);
    var s := Import(vars[OBJECTS], flushed.crypto, flushed.nextHandle, failure, false);
    assert s.memory == Slots(l, blob);
    NothingToImport(s, backend, failure.inFailureMode, MAX_LOADED_OBJECTS);
    var after := Apply(l, blob, |blob|, backend, failure).library;
    assert after.vars == vars;
    SameOffsets(vars, l.vars);
    forall i | 0 <= i < MAX_LOADED_OBJECTS
      ensures ExportUnit(vars[OBJECTS][i], after.crypto) == vars[OBJECTS][i]
    {
      assert !IsRunning(Slot(Slots(l, blob), i));
    }
    assert ExportAll(vars[OBJECTS], after.crypto) == vars[OBJECTS];
    assert SavedVars(after) == vars;
    ConcatOfCut(l.vars, payload);
    assert HEADER + payload == blob;
  }

  lemma {:induction false} NothingToImport(s: Import, backend: Backend, wasFailing: bool, n: nat)
    requires n <= |s.memory|
    requires forall i :: 0 <= i < |s.memory| ==> !IsRunning(Slot(s.memory, i))
    ensures ImportUpTo(s, backend, wasFailing, n) == s
    decreases n
  {
    if n > 0 {
      NothingToImport(s, backend, wasFailing, n - 1);
      assert !IsRunning(Slot(s.memory, n - 1));
    }
  }
}
