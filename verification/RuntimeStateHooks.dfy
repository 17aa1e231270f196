/** The save and restore hooks over the live globals, and the wrappers that call them. */
module RuntimeStateHooks {
  import opened Bytes
  import opened Failure
  import opened SequenceObjects
  import opened RuntimeState
  import opened Wrappers

  datatype RestoreError = InvalidRestoreSize | InvalidRestoreFormat | FailedRestore(code: nat)

  type RestoreResult = Result<(), RestoreError>

  class LibraryState {
    var vars: seq<seq<Unit>>
    var crypto: map<nat, nat>
    var nextHandle: nat
    var released: seq<nat>
    var nvIndexCached: bool

    function Value(): Library
      reads this
    {
      Library(vars, crypto, nextHandle, released, nvIndexCached)
    }

    constructor (l: Library)
      ensures Value() == l
    {
      vars, crypto, nextHandle := l.vars, l.crypto, l.nextHandle;
      released, nvIndexCached := l.released, l.nvIndexCached;
    }

    // -------------------------------------------------------------- saving

    method GetRuntimeStateSize() returns (size: nat)
      requires Shaped(Value())
      ensures size == RequiredSize(Value())
    {
      var totalSize := 0;
      for i := 0 to |vars|
        invariant totalSize == Offset(vars, i)
      {
        OffsetStep(vars, i);
        OffsetMonotone(vars, i + 1, |vars|);
        totalSize := (totalSize + |vars[i]|) % U32_LIMIT;
      }
      assert vars[..|vars|] == vars;
      return (totalSize + HEADER_SIZE) % U32_LIMIT;
    }

    method ExportSequenceObjectStates(saved: array<Unit>, at: nat)
      requires Shaped(Value()) && at + MAX_LOADED_OBJECTS <= saved.Length
      requires saved[at..at + MAX_LOADED_OBJECTS] == vars[OBJECTS]
      modifies saved
      ensures saved[..] == Overlay(old(saved[..]), at, ExportAll(vars[OBJECTS], crypto))
    {
      ghost var was, exported := saved[..], ExportAll(vars[OBJECTS], crypto);
      for i := 0 to MAX_LOADED_OBJECTS
        invariant forall k :: 0 <= k < at || at + i <= k < saved.Length ==> saved[k] == was[k]
        invariant forall k :: at <= k < at + i ==> saved[k] == exported[k - at]
      {
        assert was[at + i] == saved[at + i] == vars[OBJECTS][i] by {
          assert was[at..at + MAX_LOADED_OBJECTS][i] == was[at + i];
        }
        var o := AsObject(vars[OBJECTS][i]);
        if !o.occupied || !o.sequence {
          continue;
        }
        saved[at + i] := Image(Export(o, crypto));
      }
      OverlayAt(saved[..], was, at, exported);
    }

    /** Copy variable `i` into the blob, with its sequences exported if it is `s_objects`. */
    method WriteVariable(buffer: array<Unit>, position: nat, i: nat)
      requires Shaped(Value()) && i < |vars| && position + |vars[i]| <= buffer.Length
      modifies buffer
      ensures buffer[..] == Overlay(old(buffer[..]), position, SavedVars(Value())[i])
    {
      ghost var was := buffer[..];
      forall k | 0 <= k < |vars[i]| {
        buffer[position + k] := vars[i][k];
      }
      OverlayAt(buffer[..], was, position, vars[i]);
      if i == OBJECTS {
        ExportSequenceObjectStates(buffer, position);
        assert Overlay(Overlay(was, position, vars[i]), position, SavedVars(Value())[i])
            == Overlay(was, position, SavedVars(Value())[i]);
      }
    }

    method WriteBlob(buffer: array<Unit>)
      requires Shaped(Value()) && RequiredSize(Value()) <= buffer.Length
      modifies buffer
      ensures buffer[..] == Overlay(old(buffer[..]), 0, Blob(Value()))
    {
      ghost var was, saved := buffer[..], SavedVars(Value());
      forall k | 0 <= k < HEADER_SIZE {
        buffer[k] := HEADER[k];
      }
      OverlayAt(buffer[..], was, 0, HEADER);
      var position := HEADER_SIZE;
      assert HEADER + Concat(saved[..0]) == HEADER;
      for i := 0 to |vars|
        invariant position == HEADER_SIZE + Offset(saved, i) <= buffer.Length
        invariant buffer[..] == Overlay(was, 0, HEADER + Concat(saved[..i]))
      {
        NextEntry(i);
        WriteVariable(buffer, position, i);
        OverlayGrows(was, HEADER + Concat(saved[..i]), saved[i]);
        assert HEADER + Concat(saved[..i]) + saved[i] == HEADER + Concat(saved[..i + 1]);
        position := position + |vars[i]|;
      }
      assert saved[..|vars|] == saved;
    }

    /** Nothing is changed but the buffer, and of it only the first required units. */
    method GetRuntimeState(buffer: array?<Unit>, bufferSize: Option<nat>)
      returns (code: nat, newSize: Option<nat>)
      requires Shaped(Value())
      requires buffer != null && bufferSize.Some? ==> bufferSize.value <= buffer.Length
      modifies if buffer == null then {} else {buffer}
      ensures code == 1 <==> bufferSize.None? || (buffer == null && bufferSize.value != 0)
      ensures code == 1 ==> newSize == bufferSize
      ensures code != 1 ==> && newSize == Some(RequiredSize(Value()))
                            && code == if bufferSize.value < RequiredSize(Value()) then 2 else 0
      ensures code == 0 ==> buffer != null && buffer[..] == Overlay(old(buffer[..]), 0, Blob(Value()))
      ensures code != 0 && buffer != null ==> buffer[..] == old(buffer[..])
    {
      if bufferSize.None? || (buffer == null && bufferSize.value != 0) {
        return 1, bufferSize;
      }
      var requiredSize := GetRuntimeStateSize();
      if bufferSize.value < requiredSize {
        return 2, Some(requiredSize);
      }
      WriteBlob(buffer);
      return 0, Some(requiredSize);
    }

    lemma NextEntry(i: nat)
      requires Shaped(Value()) && i < |vars|
      ensures var saved := SavedVars(Value());
              && Offset(saved, i + 1) == Offset(saved, i) + |vars[i]|
              && Concat(saved[..i + 1]) == Concat(saved[..i]) + saved[i]
              && HEADER_SIZE + Offset(saved, i + 1) <= RequiredSize(Value())
    {
      var saved := SavedVars(Value());
      OffsetStep(saved, i);
      OffsetMonotone(saved, i + 1, |saved|);
      OffsetsAgree(saved, vars, |vars|);
      assert vars[..|vars|] == vars && saved[..|vars|] == saved;
    }

    /** The two-call handshake; its assertions on the return codes hold. */
    method GetLibraryState() returns (blob: seq<Unit>)
      requires Shaped(Value())
      ensures blob == Blob(Value())
    {
      var code, size := GetRuntimeState(null, Some(0));
      assert code == 2 && size.value != 0;
      var buffer := new Unit[size.value](_ => Byte(0));
      code, size := GetRuntimeState(buffer, size);
      assert code == 0;
      return buffer[..];
    }

    // -------------------------------------------------------------- restoring

    method ObjectFlush(process: nat, i: nat)
      requires |vars| == VARIABLE_COUNT && i < |vars[OBJECTS]|
      modifies this
      ensures Value() == Flush(old(Value()), process, i)
    {
      var o := AsObject(vars[OBJECTS][i]);
      var owned := Owned(o, process, crypto);
      if owned.Some? {
        crypto := crypto - {owned.value};
        released := released + [owned.value];
      }
      SetSlot(i, o.(occupied := false));
    }

    method SetSlot(i: nat, o: Object)
      requires |vars| == VARIABLE_COUNT && i < |vars[OBJECTS]|
      modifies this`vars
      ensures vars == old(vars)[OBJECTS := old(vars)[OBJECTS][i := Image(o)]]
    {
      vars := vars[OBJECTS := vars[OBJECTS][i := Image(o)]];
    }

    ghost function ImportState(failure: FailureState, stopped: bool): Import
      requires |vars| == VARIABLE_COUNT
      reads this, failure
    {
      Import(vars[OBJECTS], crypto, nextHandle, failure.Value(), stopped)
    }

    /** Contract of `SequenceDataImport`: rebuild slot `i` from its staged form. */
    method SequenceDataImport(i: nat, staged: Object, backend: Backend, failure: FailureState)
      requires !failure.mutex.held
      requires |vars| == VARIABLE_COUNT && i < |vars[OBJECTS]|
      modifies this`vars, this`crypto, this`nextHandle, failure, failure.mutex
      ensures !failure.mutex.held
      ensures vars == old(vars)[OBJECTS := old(vars)[OBJECTS][i :=
                Image(SequenceObjects.Import(staged, backend.process, old(nextHandle), i in backend.refused))]]
      ensures !Importable(staged) || i in backend.refused ==>
                crypto == old(crypto) && nextHandle == old(nextHandle)
                && failure.Value() == Fail(old(failure.Value()), backend.location, backend.code)
      ensures Importable(staged) && i !in backend.refused ==>
                && failure.Value() == old(failure.Value())
                && if IsMlDsa(staged)
                   then crypto == old(crypto)[old(nextHandle) := HandleOf(staged).state] && nextHandle == old(nextHandle) + 1
                   else crypto == old(crypto) && nextHandle == old(nextHandle)
    {
      SetSlot(i, SequenceObjects.Import(staged, backend.process, nextHandle, i in backend.refused));
      if !Importable(staged) || i in backend.refused {
        failure.PlatFail(backend.location, backend.code);
      } else if IsMlDsa(staged) {
        crypto := crypto[nextHandle := HandleOf(staged).state];
        nextHandle := nextHandle + 1;
      }
    }

    /** Point the SMAC contexts of slot `i` at this process's methods. */
    method RepairSmacContexts(i: nat, process: nat)
      requires |vars| == VARIABLE_COUNT && i < |vars[OBJECTS]| && vars[OBJECTS][i].Image?
      modifies this`vars
      ensures vars == old(vars)[OBJECTS := old(vars)[OBJECTS][i :=
                        Image(MapContexts(old(vars)[OBJECTS][i].slot, c => RepairContext(c, process)))]]
    {
      ghost var was := vars[OBJECTS][i].slot;
      ghost var repaired := MapContexts(was, c => RepairContext(c, process));
      var sequence: Object := vars[OBJECTS][i].slot;
      var count := if sequence.eventSeq then HASH_COUNT else 1;
      for j := 0 to count
        invariant SameBesideState(sequence, was)
        invariant forall k :: 0 <= k < HASH_COUNT ==>
                    sequence.contexts[k] == if k < j then repaired.contexts[k] else was.contexts[k]
      {
        var hash := sequence.contexts[j];
        if hash.kind == HASH_STATE_SMAC {
          hash := hash.(def := Null);
          hash := hash.(data := Method(process, CryptCmacData));
          hash := hash.(end := Method(process, CryptCmacEnd));
          sequence := sequence.(contexts := sequence.contexts[j := hash]);
        }
      }
      assert sequence.contexts == repaired.contexts;
      SetSlot(i, sequence);
    }

    method ImportSequenceObjectStates(backend: Backend, failure: FailureState) returns (ok: bool)
      requires !failure.mutex.held
      requires |vars| == VARIABLE_COUNT && |vars[OBJECTS]| == MAX_LOADED_OBJECTS
      modifies this`vars, this`crypto, this`nextHandle, failure, failure.mutex
      ensures !failure.mutex.held
      ensures |vars| == VARIABLE_COUNT && vars == old(vars)[OBJECTS := vars[OBJECTS]]
      ensures ImportState(failure, !ok)
           == ImportUpTo(old(ImportState(failure, false)), backend, old(failure.inFailureMode), |old(vars)[OBJECTS]|)
    {
      var wasInFailureMode := failure.PlatInFailureMode();
      ghost var start := ImportState(failure, false);
      for i := 0 to |vars[OBJECTS]|
        invariant |vars| == VARIABLE_COUNT && |vars[OBJECTS]| == |old(vars)[OBJECTS]|
        invariant vars == old(vars)[OBJECTS := vars[OBJECTS]]
        invariant ImportState(failure, false) == ImportUpTo(start, backend, wasInFailureMode, i)
        invariant failure.inFailureMode == wasInFailureMode == old(failure.inFailureMode) && !failure.mutex.held
      {
        ok := ImportSequenceObjectState(i, backend, failure, wasInFailureMode);
        if !ok {
          StoppedStays(start, backend, wasInFailureMode, i + 1, |old(vars)[OBJECTS]|);
          return false;
        }
      }
      return true;
    }

    /** One round of the import loop; false when it ends the loop. */
    method ImportSequenceObjectState(i: nat, backend: Backend, failure: FailureState, wasInFailureMode: bool)
      returns (ok: bool)
      requires !failure.mutex.held
      requires |vars| == VARIABLE_COUNT && i < |vars[OBJECTS]| && failure.inFailureMode == wasInFailureMode
      modifies this`vars, this`crypto, this`nextHandle, failure, failure.mutex
      ensures !failure.mutex.held
      ensures |vars| == VARIABLE_COUNT && vars == old(vars)[OBJECTS := vars[OBJECTS]]
      ensures ImportState(failure, !ok)
           == ImportSlot(old(ImportState(failure, false)), backend, wasInFailureMode, i)
      ensures ok ==> failure.inFailureMode == wasInFailureMode
    {
      var staged := AsObject(vars[OBJECTS][i]);
      if !staged.occupied || !staged.sequence {
        return true;
      }
      SequenceDataImport(i, staged, backend, failure);
      if !wasInFailureMode {
        var failing := failure.PlatInFailureMode();
        if failing {
          return false;
        }
      }
      var imported := vars[OBJECTS][i].slot;
      if (imported.signSeq || imported.verifySeq) && imported.scheme == TPM_ALG_MLDSA {
        return true;
      }
      RepairSmacContexts(i, backend.process);
      return true;
    }

    /** A null buffer is refused with code 1; otherwise this is `Apply`. */
    method ApplyRuntimeState(buffer: Option<seq<Unit>>, size: nat, backend: Backend, failure: FailureState)
      returns (code: nat)
      requires !failure.mutex.held
      requires Shaped(Value()) && (buffer.Some? ==> size <= |buffer.value|)
      modifies this, failure, failure.mutex
      ensures !failure.mutex.held
      ensures buffer.None? ==> code == 1 && Value() == old(Value()) && failure.Value() == old(failure.Value())
      ensures buffer.Some? ==>
                Applied(code, Value(), failure.Value())
                == Apply(old(Value()), buffer.value, size, backend, old(failure.Value()))
    {
      if buffer.None? {
        return 1;
      }
      var blob := buffer.value;
      var requiredSize := GetRuntimeStateSize();
      if size != requiredSize {
        return 2;
      }
      if blob[..8] != LittleEndian(0x545354524D505456, 8)
         || blob[8..12] != LittleEndian(0x10, 4)
         || blob[12..HEADER_SIZE] != LittleEndian(VARIABLE_COUNT, 4) {
        HeaderFields(blob);
        return 3;
      }
      HeaderFields(blob);
      code := AcceptPayload(blob[HEADER_SIZE..size], backend, failure);
    }

    method AcceptPayload(payload: seq<Unit>, backend: Backend, failure: FailureState) returns (code: nat)
      requires !failure.mutex.held
      requires |vars| == VARIABLE_COUNT && |vars[OBJECTS]| == MAX_LOADED_OBJECTS
      requires |payload| == Total(vars)
      modifies this, failure, failure.mutex
      ensures !failure.mutex.held
      ensures Applied(code, Value(), failure.Value())
           == Accept(old(Value()), payload, backend, old(failure.Value()))
    {
      ghost var was, cut := Value(), Cut(vars, payload);
      FlushAll(backend.process);
      ghost var flushed := Value();
      CutsAgree(vars, was.vars, payload);
      OverwriteVariables(payload);
      assert vars == cut;
      nvIndexCached := false;
      ghost var start := Import(cut[OBJECTS], flushed.crypto, flushed.nextHandle, failure.Value(), false);
      assert ImportState(failure, false) == start;
      var ok := ImportSequenceObjectStates(backend, failure);
      assert released == flushed.released && !nvIndexCached;
      assert vars == cut[OBJECTS := vars[OBJECTS]];
      return if ok then 0 else 4;
    }

    method FlushAll(process: nat)
      requires |vars| == VARIABLE_COUNT && |vars[OBJECTS]| == MAX_LOADED_OBJECTS
      modifies this
      ensures Value() == FlushUpTo(old(Value()), process, |old(vars)[OBJECTS]|)
    {
      for i := 0 to |vars[OBJECTS]|
        invariant |vars| == VARIABLE_COUNT && |vars[OBJECTS]| == |old(vars)[OBJECTS]|
        invariant Value() == FlushUpTo(old(Value()), process, i)
      {
        ObjectFlush(process, i);
      }
    }

    /** Copy each entry of the table out of the payload. */
    method OverwriteVariables(payload: seq<Unit>)
      requires |payload| == Total(vars)
      modifies this`vars
      ensures vars == Cut(old(vars), payload)
    {
      ghost var was := vars;
      ghost var cut := Cut(was, payload);
      var position := 0;
      assert was[..0] == [];
      for i := 0 to |vars|
        invariant |vars| == |was| && position == Offset(was, i)
        invariant forall j :: 0 <= j < |was| ==> vars[j] == if j < i then cut[j] else was[j]
      {
        CutAt(was, payload, i);
        var next := position + |vars[i]|;
        vars := vars[i := payload[position..next]];
        position := next;
      }
      assert vars == cut;
    }

    /** The length of the saved vector reaches the hook as a u32. A null-pointer
        code never comes back, so the unreachable arms are never taken. */
    method RestoreLibraryState(blob: seq<Unit>, backend: Backend, failure: FailureState)
      returns (r: RestoreResult)
      requires !failure.mutex.held
      requires Shaped(Value())
      modifies this, failure, failure.mutex
      ensures !failure.mutex.held
      ensures r == ResultOf(Apply(old(Value()), blob, |blob| % U32_LIMIT, backend, old(failure.Value())).code)
      ensures Value() == Apply(old(Value()), blob, |blob| % U32_LIMIT, backend, old(failure.Value())).library
      ensures failure.Value() == Apply(old(Value()), blob, |blob| % U32_LIMIT, backend, old(failure.Value())).failure
    {
      var code := ApplyRuntimeState(Some(blob), |blob| % U32_LIMIT, backend, failure);
      match code {
        case 0 => return Ok(());
        case 2 => return Err(InvalidRestoreSize);
        case 3 => return Err(InvalidRestoreFormat);
        case _ => assert code == 4; return Err(FailedRestore(code));
      }
    }
  }

  function ResultOf(code: nat): RestoreResult {
    match code
    case 0 => Ok(())
    case 2 => Err(InvalidRestoreSize)
    case 3 => Err(InvalidRestoreFormat)
    case _ => Err(FailedRestore(code))
  }

  lemma HeaderFields(blob: seq<Unit>)
    requires |blob| >= HEADER_SIZE
    ensures blob[..HEADER_SIZE] == HEADER
            <==> && blob[..8] == LittleEndian(0x545354524D505456, 8)
                 && blob[8..12] == LittleEndian(0x10, 4)
                 && blob[12..HEADER_SIZE] == LittleEndian(VARIABLE_COUNT, 4)
  {
    assert blob[..HEADER_SIZE] == blob[..8] + blob[8..12] + blob[12..HEADER_SIZE];
  }

  /** Once the import has given up, the remaining slots are not touched. */
  lemma {:induction false} StoppedStays(s: Import, backend: Backend, wasFailing: bool, m: nat, n: nat)
    requires m <= n <= |s.memory| && ImportUpTo(s, backend, wasFailing, m).stopped
    ensures ImportUpTo(s, backend, wasFailing, n) == ImportUpTo(s, backend, wasFailing, m)
    decreases n
  {
    if m < n {
      StoppedStays(s, backend, wasFailing, m, n - 1);
    }
  }

  lemma OverlayGrows(was: seq<Unit>, part: seq<Unit>, next: seq<Unit>)
    requires |part| + |next| <= |was|
    ensures Overlay(Overlay(was, 0, part), |part|, next) == Overlay(was, 0, part + next)
  {
  }
}
