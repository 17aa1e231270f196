/** The packed runtime-state blob: what is written, what is accepted, and what
    an accepted blob does to the library, as values. */
module RuntimeState {
  import opened Bytes
  import opened Failure
  import opened SequenceObjects
  import opened Wrappers

  /** One unit of a global variable or of a blob: a byte of plain data, or the
      image of one object slot. */
  datatype Unit = Byte(b: byte) | Image(slot: Object)

  /** The table of saved variables. */
  const VARIABLES: seq<string> := [
    "g_toTest", "g_exclusiveAuditSession", "g_time", "g_timeEpoch", "g_phEnable", "g_pcrReConfig",
    "g_DRTMHandle", "g_DrtmPreStartup", "g_StartupLocality3", "g_daUsed", "g_powerWasLost",
    "g_prevOrderlyState", "g_nvOk", "gp", "go", "gc", "gr", "g_cryptoSelfTestState", "g_manufactured",
    "g_initialized", "g_initCompleted", "s_DAPendingOnNV", "s_indexOrderlyRam", "s_maxCounter",
    "s_objects", "s_pcrs", "s_sessions", "s_oldestSavedSession", "s_freeSessionSlots"]

  const VARIABLE_COUNT: nat := 29
  const OBJECTS: nat := 24

  lemma ObjectsInTable()
    ensures |VARIABLES| == VARIABLE_COUNT && OBJECTS < |VARIABLES| && VARIABLES[OBJECTS] == "s_objects"
  {
  }

  const U32_LIMIT: nat := 0x1_0000_0000

  function Pow256(n: nat): (p: nat)
    ensures p > 0
  {
    if n == 0 then 1 else 256 * Pow256(n - 1)
  }

  function LittleEndian(value: nat, width: nat): seq<Unit> {
    seq(width, i requires 0 <= i => Byte(value / Pow256(i) % 256))
  }

  /** Magic, revision and variable count, in their struct layout. */
  const HEADER: seq<Unit> :=
    LittleEndian(0x545354524D505456, 8) + LittleEndian(0x10, 4) + LittleEndian(VARIABLE_COUNT, 4)
  const HEADER_SIZE: nat := 16

  lemma PowersOf256()
    ensures Pow256(0) == 1 && Pow256(1) == 0x100 && Pow256(2) == 0x1_0000 && Pow256(3) == 0x100_0000
    ensures Pow256(4) == 0x1_0000_0000 && Pow256(5) == 0x100_0000_0000
    ensures Pow256(6) == 0x1_0000_0000_0000 && Pow256(7) == 0x100_0000_0000_0000
  {
  }

  /** In the blob the magic number reads "VTPMRTST"; the revision and the number
      of variables follow, least significant byte first. */
  lemma HeaderSpellsMagic()
    ensures HEADER == [Byte(0x56), Byte(0x54), Byte(0x50), Byte(0x4D), Byte(0x52), Byte(0x54), Byte(0x53), Byte(0x54)]
                      + [Byte(0x10), Byte(0), Byte(0), Byte(0)] + [Byte(29), Byte(0), Byte(0), Byte(0)]
    ensures |HEADER| == HEADER_SIZE == 16
  {
    PowersOf256();
    var magic, revision, count := LittleEndian(0x545354524D505456, 8), LittleEndian(0x10, 4), LittleEndian(VARIABLE_COUNT, 4);
    assert revision == [Byte(0x10), Byte(0), Byte(0), Byte(0)];
    assert count == [Byte(29), Byte(0), Byte(0), Byte(0)];
    assert magic[0] == Byte(0x56) && magic[1] == Byte(0x54);
    assert magic[2] == Byte(0x50) && magic[3] == Byte(0x4D);
    assert magic[4] == Byte(0x52) && magic[5] == Byte(0x54);
    assert magic[6] == Byte(0x53) && magic[7] == Byte(0x54);
  }

  /** The library's saved globals, and the crypto state behind its handles:
      `crypto` maps each live handle to the state it denotes. */
  datatype Library = Library(
    vars: seq<seq<Unit>>,
    crypto: map<nat, nat>,
    nextHandle: nat,
    released: seq<nat>,
    nvIndexCached: bool)

  datatype Applied = Applied(code: nat, library: Library, failure: Failure)

  // ---------------------------------------------------------------- layout

  function Total(vars: seq<seq<Unit>>): nat
    decreases |vars|
  {
    if vars == [] then 0 else Total(vars[..|vars| - 1]) + |vars[|vars| - 1]|
  }

  function Concat(vars: seq<seq<Unit>>): (s: seq<Unit>)
    ensures |s| == Total(vars)
    decreases |vars|
  {
    if vars == [] then [] else Concat(vars[..|vars| - 1]) + vars[|vars| - 1]
  }

  function Offset(vars: seq<seq<Unit>>, i: nat): nat
    requires i <= |vars|
  {
    Total(vars[..i])
  }

  lemma OffsetStep(vars: seq<seq<Unit>>, i: nat)
    requires i < |vars|
    ensures Offset(vars, i + 1) == Offset(vars, i) + |vars[i]|
    ensures Concat(vars[..i + 1]) == Concat(vars[..i]) + vars[i]
  {
    assert vars[..i + 1][..i] == vars[..i];
  }

  lemma {:induction false} OffsetMonotone(vars: seq<seq<Unit>>, i: nat, j: nat)
    requires i <= j <= |vars|
    ensures Offset(vars, i) <= Offset(vars, j) <= Total(vars)
    decreases |vars| - i
  {
    assert vars[..|vars|] == vars;
    if i < j {
      OffsetStep(vars, i);
      OffsetMonotone(vars, i + 1, j);
    } else if j < |vars| {
      OffsetStep(vars, j);
      OffsetMonotone(vars, j + 1, |vars|);
    }
  }

  predicate SameSizes(a: seq<seq<Unit>>, b: seq<seq<Unit>>) {
    |a| == |b| && forall i :: 0 <= i < |a| ==> |a[i]| == |b[i]|
  }

  lemma {:induction false} OffsetsAgree(a: seq<seq<Unit>>, b: seq<seq<Unit>>, i: nat)
    requires SameSizes(a, b) && i <= |a|
    ensures Offset(a, i) == Offset(b, i)
    decreases i
  {
    if i > 0 {
      OffsetStep(a, i - 1);
      OffsetStep(b, i - 1);
      OffsetsAgree(a, b, i - 1);
    }
  }

  function Piece(vars: seq<seq<Unit>>, payload: seq<Unit>, i: nat): (r: seq<Unit>)
    requires |payload| == Total(vars) && i < |vars|
    ensures |r| == |vars[i]|
  {
    OffsetMonotone(vars, i + 1, |vars|);
    OffsetStep(vars, i);
    payload[Offset(vars, i)..Offset(vars, i + 1)]
  }

  /** A payload cut along the table into one piece per variable. */
  function Cut(vars: seq<seq<Unit>>, payload: seq<Unit>): (r: seq<seq<Unit>>)
    requires |payload| == Total(vars)
    ensures SameSizes(r, vars)
  {
    seq(|vars|, i requires 0 <= i < |vars| => Piece(vars, payload, i))
  }

  lemma CutAt(vars: seq<seq<Unit>>, payload: seq<Unit>, i: nat)
    requires |payload| == Total(vars) && i < |vars|
    ensures Offset(vars, i) + |vars[i]| == Offset(vars, i + 1) <= |payload|
    ensures Cut(vars, payload)[i] == payload[Offset(vars, i)..Offset(vars, i + 1)]
  {
    OffsetMonotone(vars, i + 1, |vars|);
    OffsetStep(vars, i);
  }

  lemma {:induction false} ConcatOfCutPrefix(vars: seq<seq<Unit>>, payload: seq<Unit>, i: nat)
    requires |payload| == Total(vars) && i <= |vars|
    ensures Offset(vars, i) <= |payload|
    ensures Concat(Cut(vars, payload)[..i]) == payload[..Offset(vars, i)]
    decreases i
  {
    var cut := Cut(vars, payload);
    if i == 0 {
      assert cut[..0] == [] && vars[..0] == [];
    } else {
      ConcatOfCutPrefix(vars, payload, i - 1);
      CutAt(vars, payload, i - 1);
      OffsetStep(cut, i - 1);
      TakeMore(payload, Offset(vars, i - 1), Offset(vars, i));
    }
  }

  lemma CutsAgree(a: seq<seq<Unit>>, b: seq<seq<Unit>>, payload: seq<Unit>)
    requires SameSizes(a, b) && |payload| == Total(b)
    ensures Total(a) == Total(b) && Cut(a, payload) == Cut(b, payload)
  {
    assert a[..|a|] == a && b[..|b|] == b;
    OffsetsAgree(a, b, |a|);
    forall i | 0 <= i < |a|
      ensures Cut(a, payload)[i] == Cut(b, payload)[i]
    {
      OffsetsAgree(a, b, i);
      OffsetsAgree(a, b, i + 1);
      CutAt(a, payload, i);
      CutAt(b, payload, i);
    }
  }

  /** Cutting and packing are inverse: every accepted payload is the packing of its pieces. */
  lemma ConcatOfCut(vars: seq<seq<Unit>>, payload: seq<Unit>)
    requires |payload| == Total(vars)
    ensures Concat(Cut(vars, payload)) == payload
  {
    ConcatOfCutPrefix(vars, payload, |vars|);
    assert vars[..|vars|] == vars;
    assert Cut(vars, payload)[..|vars|] == Cut(vars, payload);
  }

  /** Where entry `i` of the table lies in a packed payload. */
  lemma {:induction false} EntryInConcat(vars: seq<seq<Unit>>, i: nat)
    requires i < |vars|
    ensures Offset(vars, i) + |vars[i]| <= Total(vars)
    ensures Concat(vars)[Offset(vars, i)..Offset(vars, i) + |vars[i]|] == vars[i]
    decreases |vars|
  {
    OffsetStep(vars, i);
    OffsetMonotone(vars, i + 1, |vars|);
    var n := |vars| - 1;
    if i < n {
      var init := vars[..n];
      assert init[..i] == vars[..i];
      EntryInConcat(init, i);
      assert Concat(vars)[..Total(init)] == Concat(init);
      assert Concat(vars)[Offset(vars, i)..Offset(vars, i) + |vars[i]|]
          == Concat(vars)[..Total(init)][Offset(vars, i)..Offset(vars, i) + |vars[i]|];
    }
  }

  /** ... and every list of variables is recovered from its packing. */
  lemma CutOfConcat(table: seq<seq<Unit>>, vars: seq<seq<Unit>>)
    requires SameSizes(table, vars)
    ensures Total(table) == Total(vars)
    ensures Cut(table, Concat(vars)) == vars
  {
    OffsetsAgree(table, vars, |vars|);
    assert table[..|table|] == table && vars[..|vars|] == vars;
    forall i | 0 <= i < |vars|
      ensures Cut(table, Concat(vars))[i] == vars[i]
    {
      EntryInConcat(vars, i);
      OffsetsAgree(table, vars, i);
      OffsetStep(table, i);
    }
  }

  // ---------------------------------------------------------------- saving

  /** The library is built from the table: its size fits in 32 bits. */
  predicate Shaped(l: Library) {
    && |l.vars| == VARIABLE_COUNT
    && |l.vars[OBJECTS]| == MAX_LOADED_OBJECTS
    && RequiredSize(l) < U32_LIMIT
  }

  function RequiredSize(l: Library): nat {
    HEADER_SIZE + Total(l.vars)
  }

  /** A slot read out of memory; a unit that is no image reads as a vacant slot. */
  function AsObject(u: Unit): Object {
    if u.Image? then u.slot else VACANT
  }

  function ExportUnit(u: Unit, crypto: map<nat, nat>): Unit {
    if IsRunning(AsObject(u)) then Image(Export(AsObject(u), crypto)) else u
  }

  function ExportAll(memory: seq<Unit>, crypto: map<nat, nat>): (r: seq<Unit>)
    ensures |r| == |memory|
  {
    seq(|memory|, i requires 0 <= i < |memory| => ExportUnit(memory[i], crypto))
  }

  /** The saved variables: `s_objects` with its sequences exported, the others byte for byte. */
  function SavedVars(l: Library): (r: seq<seq<Unit>>)
    requires Shaped(l)
    ensures SameSizes(r, l.vars)
  {
    l.vars[OBJECTS := ExportAll(l.vars[OBJECTS], l.crypto)]
  }

  function Blob(l: Library): (b: seq<Unit>)
    requires Shaped(l)
    ensures |b| == RequiredSize(l)
  {
    OffsetsAgree(SavedVars(l), l.vars, VARIABLE_COUNT);
    assert SavedVars(l)[..VARIABLE_COUNT] == SavedVars(l) && l.vars[..VARIABLE_COUNT] == l.vars;
    HEADER + Concat(SavedVars(l))
  }

  // ---------------------------------------------------------------- applying

  /** The handle whose release falls to this slot: a running ML-DSA sequence's live handle. */
  function Owned(o: Object, process: nat, crypto: map<nat, nat>): Option<nat> {
    if IsRunning(o) && IsMlDsa(o) && HandleOf(o).Handle? && HandleOf(o).process == process
       && HandleOf(o).id in crypto
    then Some(HandleOf(o).id) else None
  }

  /** Contract of `ObjectFlush`: release what the slot owns, and vacate it. */
  function Flush(l: Library, process: nat, i: nat): Library
    requires |l.vars| == VARIABLE_COUNT && i < |l.vars[OBJECTS]|
  {
    var o := AsObject(l.vars[OBJECTS][i]);
    var vacated := l.(vars := l.vars[OBJECTS := l.vars[OBJECTS][i := Image(o.(occupied := false))]]);
    match Owned(o, process, l.crypto)
    case None => vacated
    case Some(id) => vacated.(crypto := l.crypto - {id}, released := l.released + [id])
  }

  function FlushUpTo(l: Library, process: nat, n: nat): (r: Library)
    requires |l.vars| == VARIABLE_COUNT && n <= |l.vars[OBJECTS]|
    ensures |r.vars| == VARIABLE_COUNT && |r.vars[OBJECTS]| == |l.vars[OBJECTS]|
    ensures r.vars == l.vars[OBJECTS := r.vars[OBJECTS]]
    ensures r.nextHandle == l.nextHandle
    decreases n
  {
    if n == 0 then l else Flush(FlushUpTo(l, process, n - 1), process, n - 1)
  }

  /** The import loop's state: the slots, the crypto state, the platform's
      failure latch, and whether the loop gave up. */
  datatype Import = Import(memory: seq<Unit>, crypto: map<nat, nat>, nextHandle: nat,
                           failure: Failure, stopped: bool)

  /** What the environment of an import decides: the importing process, the
      slots whose state its crypto backend refuses, and how it reports that. */
  datatype Backend = Backend(process: nat, refused: set<nat>, location: nat, code: I32)

  predicate Fails(u: Unit, backend: Backend, i: nat) {
    IsRunning(AsObject(u)) && (!Importable(AsObject(u)) || i in backend.refused)
  }

  function ImportSlot(s: Import, backend: Backend, wasFailing: bool, i: nat): Import
    requires i < |s.memory|
  {
    var o := AsObject(s.memory[i]);
    if s.stopped || !IsRunning(o) then s
    else if Fails(s.memory[i], backend, i) then
      var imported := SequenceObjects.Import(o, backend.process, s.nextHandle, i in backend.refused);
      s.(failure := Fail(s.failure, backend.location, backend.code), stopped := !wasFailing,
         memory := s.memory[i := Image(if wasFailing then RepairSmac(imported, backend.process) else imported)])
    else
      var restored := Restored(o, backend.process, s.nextHandle, false);
      if IsMlDsa(o) then
        s.(memory := s.memory[i := Image(restored)],
           crypto := s.crypto[s.nextHandle := HandleOf(o).state],
           nextHandle := s.nextHandle + 1)
      else s.(memory := s.memory[i := Image(restored)])
  }

  function ImportUpTo(s: Import, backend: Backend, wasFailing: bool, n: nat): (r: Import)
    requires n <= |s.memory|
    ensures |r.memory| == |s.memory|
    decreases n
  {
    if n == 0 then s else ImportSlot(ImportUpTo(s, backend, wasFailing, n - 1), backend, wasFailing, n - 1)
  }

  /** The whole of `INJECTED_ApplyRuntimeState` on a non-null buffer. */
  function Apply(l: Library, blob: seq<Unit>, size: nat, backend: Backend, failure: Failure): Applied
    requires Shaped(l) && size <= |blob|
  {
    if size != RequiredSize(l) then Applied(2, l, failure)
    else if blob[..HEADER_SIZE] != HEADER then Applied(3, l, failure)
    else Accept(l, blob[HEADER_SIZE..size], backend, failure)
  }

  /** What an accepted payload does: flush every slot, overwrite every variable,
      drop the NV index cache, then import the sequences. */
  function Accept(l: Library, payload: seq<Unit>, backend: Backend, failure: Failure): Applied
    requires |l.vars| == VARIABLE_COUNT && |l.vars[OBJECTS]| == MAX_LOADED_OBJECTS
    requires |payload| == Total(l.vars)
  {
    var flushed := FlushUpTo(l, backend.process, |l.vars[OBJECTS]|);
    var vars := Cut(l.vars, payload);
    var end := ImportUpTo(Import(vars[OBJECTS], flushed.crypto, flushed.nextHandle, failure, false),
                          backend, failure.inFailureMode, |vars[OBJECTS]|);
    Applied(if end.stopped then 4 else 0,
            Library(vars[OBJECTS := end.memory], end.crypto, end.nextHandle, flushed.released, false),
            end.failure)
  }
}
