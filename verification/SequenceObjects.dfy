/** Sequence objects: the crypto state an object slot carries while it runs,
    how it is exported into a blob, and how it is rebuilt in another process. */
module SequenceObjects {
  import opened Bytes

  const HASH_COUNT: nat := 4
  const MAX_LOADED_OBJECTS: nat := 3

  /** The library's enumerators; only their being distinguished matters here. */
  const HASH_STATE_SMAC: nat := 3
  const TPM_ALG_MLDSA: nat := 0xA1

  datatype CmacMethod = CryptCmacData | CryptCmacEnd

  /** A pointer-sized cell. Everything but `Null` and `Serialized` makes sense
      in one process only; `Serialized` is an exported ML-DSA state. */
  datatype Pointer =
    | Null
    | HashDef(process: nat, alg: nat)
    | Method(process: nat, name: CmacMethod)
    | Handle(process: nat, id: nat)
    | Serialized(state: nat)

  /** A context's running state: laid out by the crypto backend of one process, or flat. */
  datatype RunState = Native(process: nat, state: nat) | Flat(state: nat)

  datatype Context = Context(kind: nat, alg: nat, def: Pointer, data: Pointer, end: Pointer, run: RunState)

  const EMPTY_CONTEXT := Context(0, 0, Null, Null, Null, Flat(0))

  /** An object slot. The state of a sequence is a union: an ML-DSA handle shares
      its storage with the `def` pointer of the first hash context. */
  datatype ObjectData = ObjectData(
    occupied: bool,
    sequence: bool,
    eventSeq: bool,
    signSeq: bool,
    verifySeq: bool,
    scheme: nat,
    contexts: seq<Context>,
    rest: seq<byte>)

  type Object = o: ObjectData | |o.contexts| == HASH_COUNT witness VACANT

  const VACANT := ObjectData(false, false, false, false, false, 0,
                             [EMPTY_CONTEXT, EMPTY_CONTEXT, EMPTY_CONTEXT, EMPTY_CONTEXT], [])

  predicate IsRunning(o: Object) {
    o.occupied && o.sequence
  }

  /** Both halves matter: the scheme alone can be left over from a previous tenant of the slot. */
  predicate IsMlDsa(o: Object) {
    (o.signSeq || o.verifySeq) && o.scheme == TPM_ALG_MLDSA
  }

  function ContextCount(o: Object): nat {
    if o.eventSeq then HASH_COUNT else 1
  }

  function HandleOf(o: Object): Pointer {
    o.contexts[0].def
  }

  function WithHandle(o: Object, p: Pointer): Object {
    o.(contexts := o.contexts[0 := o.contexts[0].(def := p)])
  }

  /** The contexts in use transformed, the others as they were. */
  function MapContexts(o: Object, f: Context -> Context): (r: Object)
    ensures forall j :: 0 <= j < HASH_COUNT ==>
              r.contexts[j] == if j < ContextCount(o) then f(o.contexts[j]) else o.contexts[j]
    ensures SameBesideState(r, o)
  {
    o.(contexts := seq(HASH_COUNT, j requires 0 <= j < HASH_COUNT =>
                         if j < ContextCount(o) then f(o.contexts[j]) else o.contexts[j]))
  }

  // ---------------------------------------------------------------- export and import

  /** Contract of `SequenceDataExport`: a handle becomes its serialized state,
      each hash context is flattened; an SMAC context is copied as it is. */
  function Export(o: Object, crypto: map<nat, nat>): Object {
    if IsMlDsa(o) then
      if HandleOf(o).Handle? && HandleOf(o).id in crypto
      then WithHandle(o, Serialized(crypto[HandleOf(o).id]))
      else o
    else MapContexts(o, ExportContext)
  }

  function ExportContext(c: Context): Context {
    if c.kind == HASH_STATE_SMAC then c else c.(def := Null, run := Flat(c.run.state))
  }

  /** What `SequenceDataImport` can rebuild, unless the crypto backend refuses. */
  predicate Importable(o: Object) {
    if IsMlDsa(o) then HandleOf(o).Serialized?
    else forall j :: 0 <= j < ContextCount(o) ==> ContextImportable(o.contexts[j])
  }

  predicate ContextImportable(c: Context) {
    c.kind == HASH_STATE_SMAC || c.run.Flat?
  }

  /** Contract of `SequenceDataImport` in `process`, with `id` the next crypto
      handle: `def` rebound, contexts copied in, the handle recreated. A failed
      import reports a failure and owns no handle. */
  function Import(o: Object, process: nat, id: nat, refused: bool): Object {
    if !Importable(o) || refused then if IsMlDsa(o) then WithHandle(o, Null) else o
    else if IsMlDsa(o) then WithHandle(o, Handle(process, id))
    else MapContexts(o, c => ImportContext(c, process))
  }

  function ImportContext(c: Context, process: nat): Context {
    if c.kind == HASH_STATE_SMAC then c
    else c.(def := HashDef(process, c.alg), run := Native(process, c.run.state))
  }

  /** Pointing imported SMAC contexts at this process's methods. */
  function RepairSmac(o: Object, process: nat): Object {
    if IsMlDsa(o) then o else MapContexts(o, c => RepairContext(c, process))
  }

  function RepairContext(c: Context, process: nat): Context {
    if c.kind == HASH_STATE_SMAC
    then c.(def := Null, data := Method(process, CryptCmacData), end := Method(process, CryptCmacEnd))
    else c
  }

  /** A slot after the loop of the import has handled it. */
  function Restored(o: Object, process: nat, id: nat, refused: bool): Object {
    RepairSmac(Import(o, process, id, refused), process)
  }

  // ---------------------------------------------------------------- meaning

  datatype ContextMeaning = Digest(kind: nat, alg: nat, state: nat) | Smac(alg: nat, state: nat) | Dead

  datatype Meaning = Signing(state: nat) | Hashing(contexts: seq<ContextMeaning>) | Unusable

  /** The logical running state, as seen by a process that follows the slot's
      pointers; `Dead` when one of them does not belong to that process. */
  function MeaningOfContext(c: Context, process: nat): ContextMeaning {
    if c.kind == HASH_STATE_SMAC then
      if c.data == Method(process, CryptCmacData) && c.end == Method(process, CryptCmacEnd) && c.run.Flat?
      then Smac(c.alg, c.run.state) else Dead
    else if c.def == HashDef(process, c.alg) && c.run.Native? && c.run.process == process
    then Digest(c.kind, c.alg, c.run.state)
    else Dead
  }

  function MeaningOf(o: Object, process: nat, crypto: map<nat, nat>): Meaning {
    if IsMlDsa(o) then
      if HandleOf(o).Handle? && HandleOf(o).process == process && HandleOf(o).id in crypto
      then Signing(crypto[HandleOf(o).id]) else Unusable
    else
      var meanings := seq(ContextCount(o), j requires 0 <= j < ContextCount(o) =>
                            MeaningOfContext(o.contexts[j], process));
      if Dead in meanings then Unusable else Hashing(meanings)
  }

  /** A context that a process can use: the pointers, methods and layout in it are its own. */
  predicate BelongsTo(c: Context, process: nat) {
    if c.kind == HASH_STATE_SMAC
    then c.data == Method(process, CryptCmacData) && c.end == Method(process, CryptCmacEnd) && c.run.Flat?
    else c.def == HashDef(process, c.alg) && c.run == Native(process, c.run.state)
  }

  /** A sequence that a process can go on with, field by field: a signing or
      verifying sequence under ML-DSA by its handle, whatever the union reads as;
      any other, whatever scheme is left over in it, by its hash contexts, all
      four of an event sequence and the first of one that is not. */
  predicate RunsIn(o: Object, process: nat, crypto: map<nat, nat>) {
    if (o.signSeq || o.verifySeq) && o.scheme == TPM_ALG_MLDSA
    then o.contexts[0].def.Handle? && o.contexts[0].def.process == process && o.contexts[0].def.id in crypto
    else forall j :: 0 <= j < HASH_COUNT && (j == 0 || o.eventSeq) ==> BelongsTo(o.contexts[j], process)
  }

  /** A sequence as it arrives in another process, field by field. Its handle,
      or every context in use, belongs to that process and has the old state; all
      else is untouched. */
  predicate Carried(was: Object, crypto: map<nat, nat>, now: Object, to: nat, crypto': map<nat, nat>)
  {
    && now == was.(contexts := now.contexts)
    && if (was.signSeq || was.verifySeq) && was.scheme == TPM_ALG_MLDSA
       then && was.contexts[0].def.Handle? && was.contexts[0].def.id in crypto && now.contexts[0].def.Handle?
            && now.contexts[0].def.process == to
            && now.contexts[0].def.id in crypto'
            && crypto'[now.contexts[0].def.id] == crypto[was.contexts[0].def.id]
            && now.contexts == was.contexts[0 := was.contexts[0].(def := now.contexts[0].def)]
       else forall j :: 0 <= j < HASH_COUNT ==>
              if j == 0 || was.eventSeq
              then CarriedContext(was.contexts[j], now.contexts[j], to)
              else now.contexts[j] == was.contexts[j]
  }

  predicate CarriedContext(was: Context, now: Context, to: nat) {
    && BelongsTo(now, to)
    && now.kind == was.kind && now.alg == was.alg && now.run.state == was.run.state
    && if was.kind == HASH_STATE_SMAC then now.def == Null && now.run == was.run
       else now.data == was.data && now.end == was.end
  }

  /** What a saved sequence looks like, field by field: no pointer or layout of
      the saving process is left but the methods of an SMAC context. */
  predicate Flattened(was: Object, crypto: map<nat, nat>, saved: Object)
  {
    && saved == was.(contexts := saved.contexts)
    && if (was.signSeq || was.verifySeq) && was.scheme == TPM_ALG_MLDSA
       then && was.contexts[0].def.Handle? && was.contexts[0].def.id in crypto
            && saved.contexts == was.contexts[0 := was.contexts[0].(def := Serialized(crypto[was.contexts[0].def.id]))]
       else forall j :: 0 <= j < HASH_COUNT ==>
              saved.contexts[j] ==
              if (j == 0 || was.eventSeq) && was.contexts[j].kind != HASH_STATE_SMAC
              then was.contexts[j].(def := Null, run := Flat(was.contexts[j].run.state))
              else was.contexts[j]
  }

  /** A sequence has a meaning in a process exactly if that process can go on with it. */
  lemma UsableExactlyIf(o: Object, process: nat, crypto: map<nat, nat>)
    ensures MeaningOf(o, process, crypto) != Unusable <==> RunsIn(o, process, crypto)
  {
    if !IsMlDsa(o) {
      var meanings := seq(ContextCount(o), j requires 0 <= j < ContextCount(o) =>
                            MeaningOfContext(o.contexts[j], process));
      forall j | 0 <= j < HASH_COUNT && (j == 0 || o.eventSeq)
        ensures meanings[j] == Dead <==> !BelongsTo(o.contexts[j], process)
      {
      }
      if Dead in meanings {
        var j :| 0 <= j < |meanings| && meanings[j] == Dead;
        assert !BelongsTo(o.contexts[j], process);
      }
    }
  }

  /** Everything of an object that is not its running state. */
  predicate SameBesideState(a: Object, b: Object) {
    a == b.(contexts := a.contexts)
  }

  /** An exported object means nothing until imported, and carries no address
      that the restoring side would follow without having replaced it. */
  lemma ExportIsImportable(o: Object, process: nat, crypto: map<nat, nat>)
    requires MeaningOf(o, process, crypto) != Unusable
    ensures Importable(Export(o, crypto))
    ensures SameBesideState(Export(o, crypto), o) && IsMlDsa(Export(o, crypto)) == IsMlDsa(o)
    ensures IsMlDsa(o) ==> HandleOf(Export(o, crypto)) == Serialized(MeaningOf(o, process, crypto).state)
    ensures Flattened(o, crypto, Export(o, crypto))
  {
  }

  /** Export in one process and restore in another keep the logical state,
      whatever kind of sequence the slot runs, and rebind every pointer. */
  lemma MeaningSurvives(o: Object, from: nat, crypto: map<nat, nat>,
                        to: nat, id: nat, crypto': map<nat, nat>)
    requires MeaningOf(o, from, crypto) != Unusable
    requires IsMlDsa(o) ==> id in crypto' && crypto'[id] == MeaningOf(o, from, crypto).state
    ensures var restored := Restored(Export(o, crypto), to, id, false);
            && MeaningOf(restored, to, crypto') == MeaningOf(o, from, crypto)
            && SameBesideState(restored, o)
            && (IsMlDsa(o) ==> HandleOf(restored) == Handle(to, id))
            && Carried(o, crypto, restored, to, crypto')
  {
    ExportIsImportable(o, from, crypto);
    UsableExactlyIf(o, from, crypto);
    var restored := Restored(Export(o, crypto), to, id, false);
    if !IsMlDsa(o) {
      ContextsCarried(o, from, crypto, to, id);
      var before, after := MeaningOf(o, from, crypto).contexts, MeaningOf(restored, to, crypto');
      var meanings := seq(ContextCount(o), j requires 0 <= j < ContextCount(o) =>
                            MeaningOfContext(restored.contexts[j], to));
      forall j | 0 <= j < ContextCount(o)
        ensures meanings[j] == before[j]
      {
        assert CarriedContext(o.contexts[j], restored.contexts[j], to) && BelongsTo(o.contexts[j], from);
      }
      assert Dead !in meanings;
      assert meanings == before;
    }
  }

  lemma ContextsCarried(o: Object, from: nat, crypto: map<nat, nat>, to: nat, id: nat)
    requires !IsMlDsa(o) && RunsIn(o, from, crypto)
    ensures var restored := Restored(Export(o, crypto), to, id, false);
            && SameBesideState(restored, o)
            && forall j :: 0 <= j < HASH_COUNT ==>
                 if j == 0 || o.eventSeq
                 then CarriedContext(o.contexts[j], restored.contexts[j], to)
                 else restored.contexts[j] == o.contexts[j]
  {
    var exported := Export(o, crypto);
    assert Importable(exported);
    forall j | 0 <= j < HASH_COUNT && (j == 0 || o.eventSeq)
      ensures CarriedContext(o.contexts[j], Restored(exported, to, id, false).contexts[j], to)
    {
      assert BelongsTo(o.contexts[j], from);
      ContextCarried(o.contexts[j], from, to);
    }
  }

  lemma ContextCarried(c: Context, from: nat, to: nat)
    requires BelongsTo(c, from)
    ensures CarriedContext(c, RepairContext(ImportContext(ExportContext(c), to), to), to)
  {
  }

  /** Without the repair, the import alone leaves a moved sequence unusable
      exactly when one of its contexts in use is an SMAC context. That holds for
      any slot not running ML-DSA, so also for one whose scheme is left over. */
  lemma RepairIsNeeded(o: Object, from: nat, crypto: map<nat, nat>,
                       to: nat, id: nat, crypto': map<nat, nat>)
    requires MeaningOf(o, from, crypto) != Unusable && !IsMlDsa(o) && from != to
    ensures MeaningOf(Import(Export(o, crypto), to, id, false), to, crypto') == Unusable
            <==> exists j :: 0 <= j < ContextCount(o) && o.contexts[j].kind == HASH_STATE_SMAC
  {
    ExportIsImportable(o, from, crypto);
    var imported := Import(Export(o, crypto), to, id, false);
    var before := MeaningOf(o, from, crypto).contexts;
    var meanings := seq(ContextCount(o), j requires 0 <= j < ContextCount(o) =>
                          MeaningOfContext(imported.contexts[j], to));
    forall j | 0 <= j < ContextCount(o)
      ensures meanings[j] == Dead <==> o.contexts[j].kind == HASH_STATE_SMAC
    {
      assert before[j] != Dead;
    }
    if exists j :: 0 <= j < ContextCount(o) && o.contexts[j].kind == HASH_STATE_SMAC {
      var j :| 0 <= j < ContextCount(o) && o.contexts[j].kind == HASH_STATE_SMAC;
      assert meanings[j] == Dead;
    }
  }

  /** Repairing an ML-DSA sequence as if it held hash contexts would destroy its
      handle, exactly when its union happens to read as SMAC. */
  lemma SkipIsNeeded(o: Object, process: nat, crypto: map<nat, nat>)
    requires IsMlDsa(o) && MeaningOf(o, process, crypto) != Unusable
    ensures MeaningOf(RepairSmac(o, process), process, crypto) == MeaningOf(o, process, crypto)
    ensures MeaningOf(MapContexts(o, c => RepairContext(c, process)), process, crypto) == Unusable
            <==> o.contexts[0].kind == HASH_STATE_SMAC
  {
  }
}
