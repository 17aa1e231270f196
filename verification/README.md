# Verified model of the ms-tcg-tpm-sys platform layer

`ms-tcg-tpm-sys` wraps the TCG TPM reference library. This project models the
parts of the wrapper that carry its hard obligations, and proves them:

| files | models |
|---|---|
| `Clock.dfy`, `ClockRuns.dfy` | the rate-adjusted clock: one read in 128-bit machine arithmetic, and whole runs of reads and rate adjustments |
| `SequenceObjects.dfy` | the crypto state of a running sequence object, its export and its rebuilding in another process |
| `RuntimeState.dfy`, `RuntimeStateHooks.dfy`, `RestoreTheorems.dfy` | the packed runtime-state blob, the C hooks that write and apply it, the Rust wrappers, and what saving and restoring promise |
| `PlatformMutex.dfy`, `Platform.dfy`, `PlatformSingleton.dfy`, `PlatformTheorems.dfy`, `PlatformHealth.dfy` | the global singleton behind its mutex, the public interface over it, and runs of that interface, restores of arbitrary snapshots among them |
| `NvMemory.dfy`, `Entropy.dfy`, `Failure.dfy` | NV memory, the entropy source, the failure latch |
| `Symbols.dfy` | listing and prefixing the archives' symbols |
| `Wrappers.dfy`, `Bytes.dfy` | optional values and results; bytes, and laying one sequence over part of another |

Code that changes state in place is a class whose methods are proved against
value-level functions (`ClockState.TimerRead` against `Read`,
`LibraryState.ApplyRuntimeState` against `Apply`, `Singleton.Reset` against
`DoReset`, and so on). The lemmas are about those functions.

## How the model reads the source

* **Clock.** Readings are whole milliseconds below what a `Duration` can hold.
  A read that aborts the process (a failed `expect`, or an overflow in a build
  that checks) is `None`. `overflowChecks` selects the build. The precondition
  `Sound` holds after power-on and at every callback of every run that restores
  sound clocks only, as all saved ones are (`PlatformHealth.TickingOverRun`).
* **Blob.** A unit of a blob or a global is one byte of plain data or the image
  of one object slot. An object's fields are those the hooks look at; the union of
  a sequence is modelled with its overlap, an ML-DSA handle sharing storage with
  the first hash context's `def` pointer. Pointers and handles carry the process
  they belong to.
* **Library contracts.** `SequenceDataExport`, `SequenceDataImport` and
  `ObjectFlush` are not part of this repository. `Export`, `Import` and `Flush`
  state what the hooks' comments say of them. Which slots a crypto backend
  refuses, and which failure it then reports, are inputs (`Backend`).
* **Handles.** `WellOwned` says that live ML-DSA handles and the slots owning
  them correspond one to one. A successful restore establishes it again.
* **Foreign calls.** `TPM_Manufacture`, `_TPM_Init` and `ExecuteCommand` are an
  arbitrary list of platform callbacks and an arbitrary new state of the
  globals. A foreign call requires the mutex to be free, and every callback takes it.
  A timer callback on a clock that is not `Sound` may leave any clock behind. After a
  callback that aborts, runs end in the source; here they may also go on.
* **Snapshots.** A snapshot to restore can be anything: saved by this build or not,
  with a library half of any size and format, an NV region of any length, and any
  clock. The theorems over runs hold for all of them unless they say otherwise.
* **Entropy.** One answer of the callback is what it leaves in the slice, and
  the count it claims. The requests of a run without restores draw from one stream
  of answers; in a run with restores, each request has its own.

## Where the code does less than its comments say

* `src/plat/api/clock.rs:85-87` says that backward jumps of the system time are
  fine. The guard compares with the reported time, so it absorbs only some of
  them. A jump to at least the reported time but below the last reading takes the
  reported time back, and so does any reading after a reading of zero, which
  the next read mistakes for the first one (`ReportedGoesBackwards` says exactly
  when, `ReportedGoesBackwardsInRuns` reaches both from power-on). A timer that
  restarts below its first reading, as after a restore on another host, can make
  the next read wrap and abort (`RestartedTimerAborts` says exactly when).
* Reading the clock can change it: `FrozenTimer` and `RereadIsIdempotent` say
  exactly when repeated reads of one instant add time, and how much.
* `src/plat/mod.rs:94-101`: after a failed manufacture the singleton stays
  behind without a handle, and no later initialization succeeds
  (`OrphanedByManufacture`, `ManufactureFailureIsFinal`).
* `src/plat/mod.rs:333-347`: the platform half is replaced before the library
  half is checked, so a rejected blob leaves a torn restore
  (`RejectedRestoreIsTorn`). The length reaches the hook as a `u32`, so a blob
  longer than that by a multiple of 2^32 is not rejected for its size.
* `src/plat/api/nvmem.rs:13-20` says that an NV region of any other size than
  `NV_MEMORY_SIZE` is rejected. A restore does not look at it: the region of the snapshot
  is installed as it is, a plain reset keeps it, and a commit stores it, but no
  later initialization accepts what was stored (`ForeignSizeIsLost`). Sizes are kept
  exactly as long as every restored snapshot has the right one (`SizesKept`), and
  then durability holds (`DurabilityOfSized`).
* A restore puts the predecessor of the continuous test back as well. A raw block that
  equals the one read just before it is let through exactly when a restore in
  between put back a different one, and a snapshot from before the source was
  initialized makes the next request abort (`Entropy.ContinuousTestAcrossRestores`,
  `Entropy.RepeatAfterRestore`).
* A reset refused for its blob's size keeps the NV bytes, but out of use, so
  that the library's next enabling zeroes them. A later plain reset recovers the
  image exactly if nothing was lost to that (`RecoveryAfterFailedReset`): either no
  enabling found the region out of use, or every byte that the image would have had
  at the last such one was zero or is overwritten by a later request
  (`NvMemory.OutOfUse`).

## Model

| member | source | states |
|---|---|---|
| ClockArithmetic.ResidueIsCeiling | src/plat/api/clock.rs:105-123 | the two nested truncating divisions leave behind exactly the first one's remainder, rounded up to whole milliseconds |
| ClockArithmetic.ResidueBounds | src/plat/api/clock.rs:114-123 | no more time is put back than was there, and at most 2 ms (1 ms at or above nominal speed, 0 at nominal) stay behind, for every rate in range |
| ClockArithmetic.ExchangeBounds | src/plat/api/clock.rs:108-123 | earned and consumed time differ by at most the tolerance of the rate, and on one side only when the rate is on one side of nominal |
| Clock.ReadKeepsSound | src/plat/api/clock.rs:66-128 | any read, monotone or not, keeps the invariant and never takes TPM time back |
| Clock.RebaseFits | src/plat/api/clock.rs:79-92 | the sum fits 128 bits; the wrapping subtraction wraps exactly in the case `Wraps` names |
| Clock.OrdinaryLag | src/plat/api/clock.rs:105-123 | none of the 128-bit operations on an ordinary lag overflows, in either build |
| Clock.WrappedLag | src/plat/api/clock.rs:105-127 | a wrapped lag either overflows or earns more than 64 bits of time, so the read aborts in either build |
| Clock.ClockState.TimerRead | src/plat/api/clock.rs:66-128 | a read aborts exactly on a wrap or when the TPM time outgrows 64 bits; otherwise machine arithmetic agrees with unbounded integers and the returned time does not decrease |
| Clock.ClockState.AccountTime | src/plat/api/clock.rs:95-127 | the rate adjustment of the time not yet accounted for |
| Clock.ClockState.ClockRateAdjust | src/plat/api/clock.rs:142-178 | the rate moves by the adjustment's ticks (`AdjustedRepeatedly` says how many), clamped to the limits, and the invariant is kept |
| Clock.ClockState.TimerReset | src/plat/api/clock.rs:46-63 | back to the power-on state |
| Clock.ClockState.TimerWasReset | src/plat/api/clock.rs:130-134 | read-and-clear |
| Clock.ClockState.TimerWasStopped | src/plat/api/clock.rs:136-140 | read-and-clear |
| ClockRuns.TimeNeverDecreases | src/plat/api/clock.rs:66-128 | over every run, for arbitrary readings, TPM time never decreases and the rate stays in range |
| ClockRuns.ReportedGoesBackwards | src/plat/api/clock.rs:85-92 | in any state, a read that does not wrap takes the reported time back exactly when the previous reading was zero and some time was reported, or it was not and the reading lies between the reported time and the previous reading |
| ClockRuns.ReportedGoesBackwardsInRuns | src/plat/api/clock.rs:76-93 | both ways are reached from power-on by runs of two and three readings, for all their values |
| ClockRuns.AbsorbedJump | src/plat/api/clock.rs:85-92 | a jump to below the reported time is absorbed: the reported time stands, and goes on from the new reading |
| ClockRuns.AnchoredRead | src/plat/api/clock.rs:76-128 | closed form of a read under the callback contract; the backwards guard does not fire and nothing wraps |
| ClockRuns.RestartedTimerAborts | src/plat/api/clock.rs:85-92 | after a monotone run, a reading aborts by wrapping exactly when it lies at or above the elapsed time and below the first reading |
| ClockRuns.ReportedClosedForm | src/plat/api/clock.rs:60-93 | over every monotone run the reported time is the last reading less the first nonzero one |
| ClockRuns.DriftOverRun | src/plat/api/clock.rs:66-128 | from any state that monotone readings lead to, over every further run of monotone readings and any adjustments: time gained against time consumed and the number of accounting reads |
| ClockRuns.DriftBound | src/plat/api/clock.rs:66-178 | from power-on, over every run of monotone reads and any adjustments, the two-sided drift bound against the elapsed time, with its per-read term |
| ClockRuns.NoAbort | src/plat/api/clock.rs:100-128 | under the callback contract the conversion to u64 cannot fail before the stated elapsed time and number of accounting reads |
| ClockRuns.NoAbortOverRun | src/plat/api/clock.rs:66-178 | from power-on, no run of monotone readings and any adjustments aborts while its elapsed time and its number of reads leave room in 64 bits |
| ClockRuns.LeftoverOfRead | src/plat/api/clock.rs:100-123 | after any read, what is reported but not accounted for is exactly the rounded-up remainder, never negative and at most 1 ms (2 ms below nominal speed) |
| ClockRuns.ExactAccounting | src/plat/api/clock.rs:105-123 | at a fixed rate, ticks earned less ticks consumed over a run are exactly the remainders dropped |
| ClockRuns.NominalClockIsExact | src/plat/api/clock.rs:66-128 | with no rate change the TPM time is the elapsed time |
| ClockRuns.OneSidedSpeed | src/plat/api/clock.rs:100-178 | never set fast, the clock never runs ahead however often it is read; never set slow, it is never more than 1 ms behind |
| ClockRuns.AdjustmentSteers | src/plat/api/clock.rs:142-178 | positive adjustments speed the clock up and negative ones slow it down; opposite ones cancel exactly when not clamped; unknown codes do nothing |
| ClockRuns.AdjustmentsAreOrdered | src/plat/api/clock.rs:142-178 | a stronger adjustment steers at least as far, and further away from the limits |
| ClockRuns.AdjustedRepeatedly | src/plat/api/clock.rs:142-178 | any number of equal adjustments, from any rate in range, move it by 300, 30 or 1 ticks each, up to 35000 or down to 25000, and change nothing else |
| ClockRuns.AdjustmentSizes | src/plat/api/clock.rs:143-165 | thirty fine adjustments are one medium one, and ten medium ones one coarse one, in both directions and at the limits |
| ClockRuns.TimeAtAdjustedRate | src/plat/api/clock.rs:66-178 | from power-on, a reading, any number of equal adjustments and a second reading give the time between them times 30000, divided by the rate reached |
| ClockRuns.FrozenTimer | src/plat/api/clock.rs:100-123 | how much time any number of rereads of one instant add, for every leftover and every rate it is reread at, adjusted in between or not |
| ClockRuns.RereadIsIdempotent | src/plat/api/clock.rs:100-123 | rereading changes nothing exactly when the first read's dropped remainder is zero, or the clock is not fast and the remainder is at most one millisecond of nominal ticks |
| SequenceObjects.ExportIsImportable | overrides/src/runtime_state.c:165-191 | a live sequence's exported form can be imported; an ML-DSA handle has become its serialized state, and every other context in use has lost its pointer and native layout, but for SMAC's |
| SequenceObjects.MeaningSurvives | overrides/src/runtime_state.c:172-259 | export in one process and restore in another keep the logical running state of every kind of sequence; field by field, every context in use, all four of an event sequence, has its old kind, algorithm and state under the restoring process's pointers and layout, a handle is fresh, and nothing else changes |
| SequenceObjects.UsableExactlyIf | overrides/src/runtime_state.c:234-255 | a sequence is usable in a process exactly if its handle, or every context in use, belongs to it: four contexts for an event sequence, one for any other, and the handle only when the slot signs or verifies under ML-DSA |
| SequenceObjects.RepairIsNeeded | overrides/src/runtime_state.c:228-255 | without the SMAC repair a moved hash sequence is unusable exactly when a context in use is SMAC, whatever stale scheme the slot carries |
| SequenceObjects.SkipIsNeeded | overrides/src/runtime_state.c:228-240 | repairing an ML-DSA sequence would destroy its handle exactly when its union reads as SMAC |
| RuntimeState.HeaderSpellsMagic | overrides/src/runtime_state.c:41-56 | the sixteen bytes of the header: "VTPMRTST", the revision and the number of variables |
| RuntimeState.ObjectsInTable | overrides/src/runtime_state.c:85-163 | the table's variables in order, and where `s_objects` is among them |
| RuntimeState.ConcatOfCut | overrides/src/runtime_state.c:300-378 | packing the pieces that an accepted payload is cut into gives the payload back |
| RuntimeState.CutOfConcat | overrides/src/runtime_state.c:300-378 | cutting a packed payload gives every variable back |
| RuntimeState.EntryInConcat | overrides/src/runtime_state.c:300-327 | entry i of the table lies at the sum of the sizes before it |
| RuntimeStateHooks.LibraryState.GetRuntimeStateSize | overrides/src/runtime_state.c:261-272 | the 32-bit sum is the header and all variables |
| RuntimeStateHooks.LibraryState.ExportSequenceObjectStates | overrides/src/runtime_state.c:172-191 | patches exactly the image of `s_objects`, slot by slot, and nothing else of the buffer |
| RuntimeStateHooks.LibraryState.WriteVariable | overrides/src/runtime_state.c:302-317 | one table entry copied, with its sequences exported if it is `s_objects` |
| RuntimeStateHooks.LibraryState.GetRuntimeState | overrides/src/runtime_state.c:274-327 | the return code in every case; on success exactly the required units of the buffer are written, with the blob |
| RuntimeStateHooks.LibraryState.GetLibraryState | src/tpmlib_state.rs:34-53 | the two-call handshake returns the blob, and its assertions on return codes hold |
| RuntimeStateHooks.LibraryState.SequenceDataImport | overrides/src/runtime_state.c:193-217 | the contract taken for the library's import of one slot |
| RuntimeStateHooks.LibraryState.RepairSmacContexts | overrides/src/runtime_state.c:241-255 | every SMAC context in use, and only those, point at this process's methods |
| RuntimeStateHooks.LibraryState.ImportSequenceObjectStates | overrides/src/runtime_state.c:193-259 | the loop rebuilds the slots in order, reporting false exactly when it stopped |
| RuntimeStateHooks.LibraryState.OverwriteVariables | overrides/src/runtime_state.c:373-378 | the variables become the pieces of the payload |
| RuntimeStateHooks.LibraryState.ApplyRuntimeState | overrides/src/runtime_state.c:329-390 | code 1 for a null buffer with nothing changed; otherwise flush, overwrite, drop the NV index cache, import, with the codes of `Apply` |
| RuntimeStateHooks.LibraryState.RestoreLibraryState | src/tpmlib_state.rs:55-69 | the mapping of return codes; the unreachable arms are unreachable; the length is truncated to 32 bits |
| RuntimeStateHooks.StoppedStays | overrides/src/runtime_state.c:219-222 | once the import gave up, later slots are untouched |
| RestoreTheorems.BlobLayout | overrides/src/runtime_state.c:300-317 | header first, then each variable at the header plus the sizes before it, sequences exported in place |
| RestoreTheorems.SavedSlot | overrides/src/runtime_state.c:172-191 | in the blob, each running sequence carries no pointer or layout of the saving process but an SMAC context's methods; every other slot is as it was |
| RestoreTheorems.RestoreCodes | overrides/src/runtime_state.c:329-390 | each code exactly when, and what it leaves: codes 2 and 3 change nothing; code 4 exactly for the platform's first failure |
| RestoreTheorems.FailureOfImport | overrides/src/runtime_state.c:205-223 | the import stops at the first failing slot unless the platform was already failing; the latch records the failure |
| RestoreTheorems.FailsExactlyIf | overrides/src/runtime_state.c:193-223 | an import fails exactly on a running slot that the backend refuses, or whose staged state is not one it can read |
| RestoreTheorems.AcceptedWhateverTheCode | overrides/src/runtime_state.c:373-389 | whatever the code, every other variable holds its piece of the blob, and each slot is, field by field, rebuilt, left by its failed import, or still what the blob has |
| RestoreTheorems.FlushReleases | overrides/src/runtime_state.c:366-371 | flushing slot by slot releases what the slots own, once each, and nothing else |
| RestoreTheorems.WellOwnedExactlyIf | overrides/src/runtime_state.c:366-371 | ownership in order, slot by slot: every live handle is that of exactly one running sequence that signs or verifies under ML-DSA |
| RestoreTheorems.EveryHandleIsReleased | overrides/src/runtime_state.c:366-378 | an accepted blob releases every live handle exactly once |
| RestoreTheorems.ImportOwns | overrides/src/runtime_state.c:205-223 | from an empty crypto state the import creates one unshared handle per ML-DSA sequence it rebuilds, and no other |
| RestoreTheorems.EveryHandleIsFresh | overrides/src/runtime_state.c:366-390 | after a successful restore live handles and rebuilt ML-DSA sequences correspond one to one, and no old handle survives |
| RestoreTheorems.OwnershipWhateverTheCode | overrides/src/runtime_state.c:366-390 | after a blob without handles is accepted, live handles and owning slots correspond one to one and are new, also when the import failed half-way |
| RestoreTheorems.SavedBlobKeepsOwnership | overrides/src/runtime_state.c:172-390 | what this build saves carries no handle, so ownership is in order after any restore of it, whatever the code |
| RestoreTheorems.ImportedSlot | overrides/src/runtime_state.c:207-256 | each slot is rebuilt from its own staged form and later slots do not disturb it |
| RestoreTheorems.SavedBlobIsAccepted | overrides/src/runtime_state.c:329-390 | a blob saved by the same build is never rejected with 1, 2 or 3; code 4 exactly when the backend refuses a running sequence as first failure |
| RestoreTheorems.CrossProcessRestore | overrides/src/runtime_state.c:172-390 | in another process every running sequence keeps its logical state, with every context in use or its handle rebound to that process, field by field; everything else arrives unchanged |
| RestoreTheorems.MovedIsResumable | overrides/src/runtime_state.c:172-259 | a restored library can be saved and moved again |
| RestoreTheorems.ApplyThenGet | overrides/src/runtime_state.c:278-390 | with no running sequence, saving after an accepted restore gives the same blob |
| Failure.FailureState.PlatFail | src/plat/api/failure.rs:37-43 | only the first failure is recorded, a negative code moved up by 2^32 |
| Failure.FailureState.StartTpmInit | src/plat/api/failure.rs:33-35 | the latch is cleared |
| Failure.FailureState.PlatInFailureMode | src/plat/api/failure.rs:72-80 | the latch is read under the mutex, which is free before and after |
| NvMemory.LengthKept | src/plat/api/nvmem.rs:107-197 | over every run of requests a region in use keeps its length and stays in use, and one of the right length keeps that |
| NvMemory.FailedRequestsDropOut | src/plat/api/nvmem.rs:126-197 | over every run, a request fails exactly when a range leaves the region, and the failed ones might as well not have been made |
| NvMemory.ServeAllTraced | src/plat/api/nvmem.rs:126-197 | every byte of a region in use is, after any run of requests, the one its origin names: a constant of some request, or one byte of the image before |
| NvMemory.OutOfUse | src/plat/api/nvmem.rs:107-124 | a region that is powered off any number of times comes out of any run of requests with the bytes of one that never was, exactly when nothing was lost to an enabling |
| NvMemory.LostAtLastZeroing | src/plat/api/nvmem.rs:107-116 | what is lost is decided at the last enabling that finds the region out of use: by the nonzero bytes of the spared image that are not overwritten later, and by all of its nonzero bytes when nothing follows |
| NvMemory.LossCanBeOverwritten | src/plat/api/nvmem.rs:107-167 | an image that is not zero at the enabling can still leave no trace |
| NvMemory.MoveThereAndBack | src/plat/api/nvmem.rs:169-197 | a block moved away and back is intact however the ranges overlap, and only bytes under the destination are lost |
| NvMemory.WriteIsNoOp | src/plat/api/nvmem.rs:154-162 | comparing equal is the same as the write changing nothing |
| NvMemory.NvState.NvEnableFromBlob | src/plat/api/nvmem.rs:94-105 | refused when in use or of the wrong size, otherwise the region is the blob |
| NvMemory.NvState.NvEnable | src/plat/api/nvmem.rs:107-116 | zeroes a region not in use, never one in use |
| NvMemory.NvState.NvMemoryRead | src/plat/api/nvmem.rs:138-152 | the range's bytes, or an error and a zeroed buffer |
| NvMemory.NvState.NvIsDifferent | src/plat/api/nvmem.rs:154-157 | true exactly when the write would change the region |
| NvMemory.NvState.NvMemoryWrite | src/plat/api/nvmem.rs:159-162 | byte by byte, the data over its range and the old bytes elsewhere; or the refused range and no change |
| NvMemory.NvState.NvMemoryClear | src/plat/api/nvmem.rs:164-167 | byte by byte, zeros over the range and the old bytes elsewhere; or the refused range and no change |
| NvMemory.NvState.NvMemoryMove | src/plat/api/nvmem.rs:169-197 | byte by byte, the old source bytes at the destination and the old bytes elsewhere; or the refused range, the source's first, and no change |
| NvMemory.CopyWithin | src/plat/api/nvmem.rs:191-194 | a directional byte loop gives an overlap-safe move |
| Entropy.FillIsHeadOfStream | src/plat/api/entropy.rs:31-54 | the fill succeeds exactly when the returned counts add up to a block, each between one and what was asked; the block is the head of the byte stream |
| Entropy.FillUsesFewAnswers | src/plat/api/entropy.rs:31-54 | a fill uses up at most four answers, from the front of the stream, and leaves the rest |
| Entropy.FillStopsAt | src/plat/api/entropy.rs:35-48 | which error a fill ends with, and at which answer: a failed or missing one, or a count of zero or more than the bytes still asked for |
| Entropy.ChunkIndependence | src/plat/api/entropy.rs:31-54 | however the stream is cut into chunks, the block is the same; only its first four bytes count |
| Entropy.ContinuousTest | src/plat/api/entropy.rs:56-74 | over every run of requests drawing from one stream, each exchange is judged against the last raw block read before it, as section 4.9.2 of FIPS 140-2 asks |
| Entropy.BlocksAreFresh | src/plat/api/entropy.rs:31-74 | every raw block of a run is made of answers that no earlier request used |
| Entropy.ContinuousTestAcrossRestores | src/plat/api/entropy.rs:56-74 | over every run of requests and restores, each exchange is judged against the block put back since the last raw read, or else the last raw read; when exactly a repeated block is let through, and when exactly a request aborts |
| Entropy.RepeatAfterRestore | src/plat/api/entropy.rs:62-74 | initialize, save, read, restore: the same block is handed out again; and a snapshot from before the initialization makes a request abort |
| Entropy.FirstBlockIsDiscarded | src/plat/api/entropy.rs:13-14 | no bytes are handed out before another raw block was read |
| Entropy.EntropyState.ReadEntropyBlock | src/plat/api/entropy.rs:31-54 | the loop ends after at most four calls and computes `FillBlock`, whatever the callback answers; the answers used are the ones at the front |
| Entropy.EntropyState.InitializeEntropy | src/plat/api/entropy.rs:56-59 | the block read becomes the predecessor, or an error leaves it; the next request starts behind the answers used |
| Entropy.EntropyState.GetEntropy | src/plat/api/entropy.rs:62-74 | the reply, the new predecessor, which bytes of the caller's buffer change, and where in the stream the next request starts |
| Platform.PerformKeepsInv | src/plat/mod.rs:88-188 | every call, a restore of any snapshot included, keeps: at most one handle, and a handle implies an initialized platform |
| Platform.SavedFromThisBuild | src/plat/mod.rs:318-330 | the library half of a snapshot taken in any reachable state has the size and header that the same build looks for |
| Platform.RequestLength | src/plat/mod.rs:292-315 | the length passed on lies within the buffer; which one it is, `CommandSize` says |
| Platform.Run | src/plat/mod.rs:110-380 | the invariant holds after every legal run of the interface |
| PlatformSingleton.Singleton.PlatformCallback | src/plat/api.rs:4-12 | a callback always gets the mutex and the singleton |
| PlatformSingleton.Singleton.ForeignCall | src/plat/mod.rs:46-59 | entered only with the mutex free |
| PlatformSingleton.Singleton.ForeignGet | src/tpmlib_state.rs:34-53 | the save hook on the live globals, entered with the mutex free |
| PlatformSingleton.Singleton.ForeignApply | src/tpmlib_state.rs:55-69 | the restore hook on the live globals and the platform's failure latch, entered with the mutex free |
| PlatformSingleton.Singleton.Initialize | src/plat/mod.rs:115-188 | the result, spelled out by `InitializeAnswers`, and the singleton left behind, in every case; the mutex is free at each foreign call |
| PlatformSingleton.Singleton.Reset | src/plat/mod.rs:191-218 | no unwrap fails; power off, NV taken over, power on, then the library with the mutex free |
| PlatformSingleton.Singleton.ExecuteCommand | src/plat/mod.rs:292-315 | a request shorter than its header says is refused, as `CommandSize` spells out |
| PlatformSingleton.Singleton.SaveState | src/plat/mod.rs:318-330 | library half first with the mutex free, then the platform half; saving changes nothing |
| PlatformSingleton.Singleton.RestoreState | src/plat/mod.rs:333-347 | platform half first, then the library's under the snapshot's failure latch |
| PlatformSingleton.Singleton.SetCancelFlag | src/plat/mod.rs:353-361 | no unwrap fails |
| PlatformSingleton.Singleton.SetLocality | src/plat/mod.rs:364-371 | no unwrap fails |
| PlatformSingleton.Singleton.Drop | src/plat/mod.rs:374-380 | no unwrap fails, and the singleton is gone |
| PlatformTheorems.SingletonOverRun | src/plat/mod.rs:88-101 | over every run, restores of any snapshot included, the singleton lives exactly as long as its handle, if and only if no initialization of the run fails in manufacture |
| PlatformTheorems.OrphanedByManufacture | src/plat/mod.rs:164-175 | a platform without a handle arises exactly from a manufacture that fails |
| PlatformTheorems.ManufactureFailureIsFinal | src/plat/mod.rs:115-175 | from there every run consists of initializations that report already initialized and change nothing |
| PlatformTheorems.InitializeAnswers | src/plat/mod.rs:115-188 | success exactly if a handle is added; the library's code exactly if a manufacture failed with it; already initialized, and a wrong size with both sizes, exactly when, and then nothing changes |
| PlatformTheorems.InitializeStarts | src/plat/mod.rs:131-183 | the platform that manufacture or `_TPM_Init` starts from, field by field, and which of the two run |
| PlatformTheorems.CommandSize | src/plat/mod.rs:292-315 | with n the big-endian number in bytes 2 to 5, a request is refused exactly if n exceeds its length modulo 2^32; otherwise the command runs on n bytes |
| PlatformTheorems.SizeFieldOf | src/plat/mod.rs:298-303 | every request has such an n unless it is too short, and then it is refused |
| PlatformTheorems.SettingsOverRun | src/plat/mod.rs:353-371 | over the life of a handle, cancel flag and locality are what was set last or what the last restore brought; no reset and no callback touches them |
| PlatformTheorems.ResetKeepsNv | src/plat/mod.rs:191-218 | the NV image the library starts from after a reset, for no blob, a right-sized and a wrong-sized one; never already initialized |
| PlatformTheorems.RecoveryAfterFailedReset | src/plat/mod.rs:191-218 | after any run of commands and refused resets, a plain reset starts the library from the image that the run leaves without the refused resets, exactly when nothing was lost to an enabling after one of them |
| PlatformTheorems.ResetIsAPowerCycle | src/plat/mod.rs:191-218 | whatever `_TPM_Init` does, it is handed a clock and power-lost flag as of power-on and everything else as it was; if it announces its start and reports no failure, the failure latch ends up clear |
| PlatformTheorems.FirstFailureWins | src/plat/api/failure.rs:37-43 | over any callbacks from one start of initialization to the next, the first failure stays recorded; the latch is clear at each start |
| PlatformTheorems.CallBacksServe | src/plat/api/nvmem.rs:107-197 | the NV image after a foreign call is that of its NV requests in order |
| PlatformTheorems.StoreIsLastCommit | src/plat/api/nvmem.rs:199-203 | over every run the store holds the NV image at the last successful commit, be it made by manufacture, by `_TPM_Init` or by a command, and whatever follows it there or later |
| PlatformTheorems.CommitsOrKeeps | src/plat/api/nvmem.rs:199-203 | every run has a last successful commit, or leaves the store as it was |
| PlatformTheorems.InitializeFromBlob | src/plat/mod.rs:142-157 | initialization from a blob succeeds exactly for the right size and starts from exactly its bytes |
| PlatformTheorems.Durability | src/plat/mod.rs:142-157 | after any run, re-initializing from the last committed bytes is accepted exactly when they are as many as they should be, and then hands the library the NV image of that commit |
| PlatformTheorems.RestoreOfSavedState | src/plat/mod.rs:333-347 | a snapshot saved by this build, in any process, is never rejected for size or format; its restore fails only on the snapshot's first failure |
| PlatformTheorems.RejectedRestoreIsTorn | src/plat/mod.rs:333-347 | rejection exactly when, and the torn state it leaves; only the low 32 bits of the length count |
| PlatformTheorems.Migration | src/plat/mod.rs:318-347 | what one process saves another process of the same build restores: the platform is exactly the saved one, and every running sequence resumes |
| PlatformHealth.SizesKept | src/plat/mod.rs:115-347 | every call keeps NV region and committed image at the right size, a restore exactly when its snapshot's region has it |
| PlatformHealth.SizesKeptOverRun | src/plat/mod.rs:110-380 | over every run that restores right-sized regions only, the sizes are right |
| PlatformHealth.DurabilityOfSized | src/plat/mod.rs:142-157 | over such runs, the last committed image is always accepted again, and handed to the library |
| PlatformHealth.ForeignSizeIsLost | src/plat/mod.rs:333-347 | in any world with a handle, a snapshot with a region of another size is restored with the answer a right-sized one gets, committed after a plain reset, and then refused by every initialization |
| PlatformHealth.TickingKept | src/plat/api/clock.rs:59-178 | every call keeps the clock within the bounds its arithmetic is proved for, a restore exactly when its snapshot's clock is |
| PlatformHealth.TickingOverRun | src/plat/api/clock.rs:59-178 | over every run that restores such clocks only, the bounds hold at every callback of every foreign call |
| PlatformHealth.FlagsOverCallbacks | src/plat/api/clock.rs:130-140 | each of the timer's flags and the power loss stays up until the first callback that asks for it, and is down from then on |
| PlatformHealth.ReportedOnce | src/plat/api/power_plat.rs:25-40 | after an initialization or a reset, over any run of commands, each of these callbacks reports true the first time and false from then on |
| PlatformHealth.TimeSincePowerOn | src/plat/api/clock.rs:66-178 | after an initialization or a reset, over any run of commands, the platform's clock is that of its timer callbacks run from power-on, so its time obeys the drift bound |
| PlatformHealth.EntropyOverRun | src/plat/mod.rs:191-347 | over the life of a handle, the predecessor block of the continuous test is what requests and restores make of it; no reset, save or failed call touches it |
| SymbolListing.ListRecoversNames | build.rs:490-514 | listing what nm prints gives exactly the symbol names among the member headers |
| Symbols.RenameIsInjective | build.rs:454-478 | renaming keeps names apart exactly when no kept name is the prefixed form of a renamed one |
| Symbols.DefinedAfter | build.rs:428-447 | what an archive defines after renaming, in terms of before |
| Symbols.NamespacingPreservesLinking | build.rs:415-478 | every name resolves to the same first archive as before, exactly when no reference is captured |
| Symbols.CapturedMoves | build.rs:415-478 | a captured reference changes from unresolved to resolved |
| Symbols.CopiesCoexist | build.rs:401-402 | linked ahead of another, unprefixed copy, our renamed symbols, platform callbacks sought among them, resolve as without it; our other references fall to it only where our archives do not define them; its C symbols are never satisfied by ours |
| Symbols.WhatIsPrefixed | build.rs:454-478 | in the archives after renaming, every C definition but SymCrypt's and every platform callback sought carry the prefix, and every other name was there before |
| Symbols.LeftAlone | build.rs:463-470 | a name of SymCrypt's, or one that is no C identifier, is defined and sought by exactly the archives that did so before, and external references to it resolve as before |
| Symbols.RenamedExactlyIf | build.rs:454-470 | which names are renamed, character by character |
| Symbols.NamesAfter | build.rs:425-447 | after renaming every archive defines and seeks exactly what it did before, under the new names |
| Symbols.ParseOfEmit | build.rs:472-477 | reading the rename file back gives its renames in order |
| Symbols.Renames | build.rs:454-478 | the written file holds, with the prefix, exactly the defined names and the platform callbacks that are C identifiers and not SymCrypt's, no source or target twice |

## Left out

- The TPM engine and the crypto backends: not in this repository; only the contracts named above are used.
- Byte widths inside an object image: the C layout of `OBJECT` is not in this repository, so one image is one unit; its enumerator values are stand-ins.
- Serialization of snapshots with postcard: library code; the model keeps the snapshot value, and a blob that postcard rejects is not modelled.
- RuntimeStateHooks.LibraryState.SequenceDataImport: an import that fails is taken to report one failure and to own no handle, because the library's own code is not shown.
- RestoreTheorems.EveryHandleIsFresh: says nothing for code 4, where slots after the failing one keep their exported form while the platform is in failure mode; for blobs without handles, all saved ones among them, OwnershipWhateverTheCode covers that code.
- Clock.ClockState.TimerRead: the fields after an abort are not described, because the process is gone.
- PlatformSingleton.Singleton.ForeignCall: a callback that aborts ends the process; the model lets the run go on with the clock or entropy state as it was, which only adds runs. The abort's half-written fields are not described.
- PlatformSingleton.Singleton.ExecuteCommand: the response buffer and its redirection are pointer plumbing.
- Entropy.EntropyState.GetEntropy: the failed assertion on an uninitialized source is the reply `Aborted` of the value-level `Serve` and a precondition of the method.
- Symbols.Renames: the symbols are written in any order, which covers the sorted order of the source.
- Locality conversion, PCR attributes, vendor information, physical presence, virtual NV and self-test stubs: finite tables and one-line functions.
- The rest of `build.rs`, the CMake and header configuration, and running `nm` and `objcopy`: configuration and I/O; archives are sets of names and the tools apply the map.
- On targets whose `usize` has 32 bits, `start_offset + len` in NV requests could wrap; offsets are unbounded here.
