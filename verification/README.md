# Verification of framehopunwind

A Dafny model of the parts of framehopunwind that have to be right while everything else is
moving: the hazard-pointer snapshot protocol, the slot pool it runs on, the cursor, the module
registry and the ELF header decoding. `dafny verify dfyconfig.toml` checks all of it.

## What is modelled

**Snapshot protocol** (`Hazard*.dfy`). `Hazard` is a labelled transition system with one
access to shared memory per action. Any number of calls of `cursor_init` and `cursor_fini`
interleave with writers and with pool growth at every point, so a signal handler nested in a
reader or in the writer is just one more call. Three things are deliberately hostile: the
allocator may hand out a freed address again, so pointer comparisons suffer from ABA; the first
load of an acquire iteration may return any version ever published, including null; and the
reclaim scan reads one hazard per action while slots are claimed and chunks are published.
Sequential consistency of the other accesses is what the `SeqCst` orderings of the source are
for. The release of a claim does not race the walk of its own cursor (the single-owner
contract), but stale copies of a cursor may be finished at any time by any call. Fields marked
as history record what happened; no guard reads them.

`HazardInvariant` states the inductive invariant, `HazardReader` and `HazardWriter` show that
every action keeps it, `HazardSafety`, `HazardProgress` and `HazardBound` draw the conclusions
for all runs. The nonce argument needs a bound on the claims of one slot: memory safety holds as
long as no slot's 64-bit sequence was bumped more than 2^64 + 1 times, and exclusive ownership up to
2^64; the theorems assume that of the state they speak about and of nothing else. `HazardWrap` shows
that both bounds are exact: one bump more, and the fini of a long dead cursor clears another claim's
hazard, so that a snapshot in use is freed; or a dead cursor and a new claim own a slot together.
`HazardStale` shows why the bound on retired snapshots has a term for stale loads. Progress is proved
for any versions that the loads of `CURRENT` may return, as long as one loop's loads do not go back
behind what it has observed.

**Slot pool** (`SlotPool.dfy`). The chunk table, lookup by index, the flattened scan, growth by
one call (a class with an array, as in the source) and by registrations interleaved freely, with
the chunk store and the count update as separate steps under the lock. The C header says that a
registration adds two slots; the code raises the pool to at least 16 + 2 per registered thread,
in whole chunks of 16, and that is what is modelled.

**Cursor** (`Cursor.dfy`). The slot is an object whose fields `step` overwrites. The unwinder is
an arbitrary function that asks for stack words one at a time and sees only the answers; it may
keep state of its own in the cache. That a step reads the stack only through its windows is stated
twice: the words it read are listed exactly, and no other word has any influence on the result. The
trampoline test and the signal-frame restore are the arm64 Linux ones, with the trampoline address as
a parameter (0 for the other targets).

**Module registry** (`Registry*.dfy`, `MacImages.dfy`, `ModuleList.dfy`). `Reg` is the registry's
value and the functions on it are the specification; `RegistryObject.Registry` is the object that
is updated in place, proved against them. framehop's module list is a list of keyed modules: add
inserts, remove of an absent key does nothing. Where a key occurs twice, framehop removes an
unspecified one of them and the model the oldest; exactness is about when no key occurs twice.
The source assumes that static and JIT keys are disjoint and that fingerprints distinguish images.
The theorems need less (`Assumed`), and `ExactThroughoutIff` says that they need exactly that: over any
run, what is published is exact all along if and only if code is never registered at the key of a
usable scanned object, no scan finds a new usable or a changed object at the key of a JIT module, and
no matching fingerprint hides a usable object. `RegistryFailures` has the runs in which it fails.

**ELF** (`Elf.dfy`, `ElfScan.dfy`). The pointer encodings of section 10.5.1 and the header of section
10.6.2 of the Linux Standard Base Core Specification 5.0, as far as the code decodes them, and the
geometry of a loaded object; `ElfScan` folds the callback over all loaded objects. Plain 64-bit
additions wrap, here and in the claim sequence, as in a release build; a debug build would panic there.

## Where prose and code differ

- The design notes say that all unwind sections are copied; the code reads loaded objects in place
  and copies only JIT sections. Nothing here depends on the difference.
- The reader says that every stack read lies inside a window. It does for every window that ends
  below the greatest address; `AdmitsIff` gives the one exception, where the saturated end passes,
  and `SaturatedEndPasses` a read it admits.
- A JIT module registered at the key of an object that was unloaded but not yet refreshed away
  leaves the object's stale module published (`StaleRun`), for good (`StaleModuleStays`).
- A refresh does not remove the module of a JIT key whose object was unloaded, but it does remove it
  when the object there has changed: only the loop over the removed keys tests for JIT keys
  (`RefreshAtJitKey`, `DroppedRun`).

## Model

| member | source | states |
|---|---|---|
| HazardSafety.NeverFreedUnderHazard | src/state.rs:301-380 | in every interleaving, if a recheck succeeds and the version it validated is later freed, the hazard of that very claim was cleared in between |
| HazardSafety.NoUseAfterFree | src/state.rs:335-380 | no reader, clone or free ever touches an address that is not allocated, with address reuse and stale first loads |
| HazardSafety.GrowthHidesNoReader | src/state.rs:177-181 | when a scan has found no hazard, every claim with a validated snapshot, also on slots published after the scan's chunk walk, holds another one |
| HazardSafety.Conservation | src/state.rs:335-380 | every published snapshot is exactly one of current, just replaced, retired or freed, and allocated exactly while not freed; the current one is never retired and none is retired twice |
| HazardSafety.EachAllocationOneRole | src/state.rs:335-380 | every allocated address, also one not yet published, is exactly once the unpublished box, the current snapshot, the one just replaced or a retired one, and no other address is any of them |
| HazardSafety.FreedAtMostOnce | src/state.rs:335-346 | what a free releases is allocated, not current, and of a version never freed before |
| HazardSafety.VersionIsSerialPrefix | src/state.rs:352-380 | each version is the result of every writer's update up to it, in the order of the swaps |
| HazardSafety.WalkSeesOneModuleSet | src/state.rs:301-327 | all reads of a live walk see the module set of one version, current at an instant after its acquire began, whatever is registered meanwhile (as long as no nonce of its slot has come round again) |
| HazardSafety.OneOwner | src/state.rs:77-111 | at most one call may touch a slot's inner state, as long as the slot's sequence was bumped at most 2^64 times |
| HazardSafety.OddWhileClaimed | src/state.rs:243-295 | a slot's sequence is odd exactly between a claim's bump and its release, and is that claim's nonce |
| HazardSafety.OneEffectiveRelease | src/state.rs:271-295 | however many finis race, the nonces of a slot are released once each, in the order 1, 3, 5, ..., and the sequence is the number of bumps modulo 2^64 |
| HazardWrap.WrapBreaksSafety | src/state.rs:271-295 | the bound of 2^64 + 1 bumps is exact: some run in which no slot's sequence was bumped more than 2^64 + 2 times ends with a reader using a freed snapshot |
| HazardWrap.WrapBreaksOwnership | src/state.rs:243-264 | the bound of 2^64 bumps for exclusive ownership is exact: with one more, a long dead cursor and a new claim own a slot together |
| HazardReader.FiniWins | src/state.rs:274-295 | the winning release takes over the slot from the walk and keeps the whole invariant, including that the view stays guarded until the hazard is cleared |
| HazardReader.KeepRecheck | src/state.rs:306-326 | a recheck, successful or not, keeps the invariant |
| HazardWriter.ScanAdvances | src/state.rs:330-332 | a scan never passes a slot that guards the address it looks for, chunk by chunk, slot by slot |
| HazardWriter.FreeGuards | src/state.rs:335-346 | freeing what a scan found unguarded leaves every guarded snapshot allocated |
| HazardProgress.RetriesConsumeSwaps | src/state.rs:306-326 | if the loads of an acquire loop never go back behind what it saw before (read-read coherence), it retries at most once more than there were swaps during the call, and at most as often as that if its first load was not stale; counted from the version the first load returned, each retry used up a distinct swap |
| HazardProgress.SoloReturns | src/state.rs:243-327 | from any state that keeps the invariant, hence any reachable one, in which the call's own bumps stay within the bound, the call run alone returns within 2n + 10 steps, whichever coherent versions its loads return: it waits for no suspended writer and no interrupted reader |
| HazardProgress.SoloResult | src/cursor.rs:152-222 | run alone, cursor_init returns -1 exactly if no slot is free, and else starts a walk exactly if its first load, stale or not, is not null; if that load is not stale, exactly if a snapshot is published |
| HazardProgress.FailedInitLeavesPool | src/cursor.rs:167-196 | run alone, whichever versions its loads return, a failing cursor_init leaves every cell of the pool as it found it |
| HazardProgress.FailedInitRestores | src/cursor.rs:167-173 | in any interleaving, a cursor_init that gives its slot back leaves it as it was before the claim; nobody else changed that slot in between, and the call changed no other |
| HazardProgress.FreeSlotIsClear | src/state.rs:271-295 | a free slot shows a null hazard and a null snapshot |
| HazardProgress.SlotsAccountedFor | src/cursor.rs:393-402 | when no call is in flight, slots in use are successful inits less effective finis |
| HazardBound.RetiredAfterWriter | src/state.rs:330-380 | in every run, after a reclaim at most two retired snapshots survive per slot in use at the swap and one per old address that a stale load returned since; with no stale load at most two per slot, and none if no slot was in use |
| HazardStale.StaleLoadKeepsRetired | src/state.rs:306-326 | the term for stale loads is needed: in some run no slot is in use at the swap and one stale load keeps the replaced snapshot through the reclaim |
| SlotPool.FlatScanIsLookup | src/state.rs:225-239 | the i-th slot of the flattened scan is slot(i), and nothing lies beyond the published slots |
| SlotPool.Pool.EnsureSlots | src/state.rs:213-223 | the pool grows to exactly the requested size rounded up to chunks, at most 1024, and published chunks stay |
| SlotPool.PoolGrows | src/state.rs:207-223 | after T registrations complete in any interleaving the pool holds at least min(1024, 16 + 2T) slots and what every returned call asked for, as a prefix of whole chunks |
| SlotPool.SlotsNeverMove | src/state.rs:266-269 | slot(i) is the same slot for ever once published |
| Cursor.AdmitsIff | src/cursor.rs:287-302 | a stack read is admitted exactly when it is aligned and inside one window, or is the last word of the address space and a window ends at the greatest address |
| Cursor.SaturatedEndPasses | src/cursor.rs:292-296 | a read that the saturated end lets through outside its window |
| Cursor.EmptySecondWindow | src/cursor.rs:206-210 | an empty second window admits nothing |
| Cursor.StackWindow | src/cursor.rs:114-123 | the chosen window holds the stack pointer, except for the greatest address |
| Cursor.Slot.Restore | src/sigreturn.rs:82-96 | registers change only if all four words could be read, and then to exactly those words; the words read are the admitted fields up to the first refused one |
| Cursor.Slot.Unwind | src/cursor.rs:321-328 | driving an arbitrary unwinder gives its outcome, and the words read are exactly those it was answered |
| Cursor.UnwindSeesItsReads | src/cursor.rs:287-328 | an unwind depends on no stack word but those it read, and each of those was admitted |
| Cursor.CallerSeesItsReads | src/cursor.rs:287-364 | finding the caller, by unwinding or by signal restore, depends on no stack word but those it read, and each of those was admitted |
| Cursor.BacktraceIsConfined | src/cursor.rs:287-364 | with windows that end below the greatest address, no frame of the backtrace depends on any word that is not aligned and inside one window |
| Cursor.Slot.Advance | src/cursor.rs:264-364 | the current frame is output before the walk moves to its caller, which exists exactly if 1 is returned; done is absorbing; the words read are exactly those that finding the caller takes |
| Cursor.Step | src/cursor.rs:247-364 | a cursor that is not live changes nothing and gets -1; a live one advances; its new state depends on no stack word but those it read, and each of those is 8-aligned and inside one window that ends below the greatest address |
| Cursor.PeekThenStep | src/cursor.rs:369-389 | while the walk is not done, get_reg gives the very pair that the next step outputs |
| Cursor.CallersAreNonNull | src/cursor.rs:335-347 | every frame after the first has a non-null address, and the address to unwind from is that address |
| Cursor.Backtrace | src/cursor.rs:243-364 | the frames output by repeated steps of a live cursor are exactly the initial frame and its successive callers, none lost, none repeated; a cursor that is not live outputs nothing, one that is done outputs zeros once and stays as it is |
| Cursor.ClaimSlot | src/state.rs:243-254 | the first free slot is claimed with its incremented sequence as nonce, and nothing else changes |
| Cursor.ReleaseSlot | src/state.rs:274-295 | only the live nonce releases, and releasing clears hazard, snapshot and use |
| Cursor.MaskKeepsCode | src/cursor.rs:224-241 | the pointer-auth mask is the run of low ones just wide enough for the highest code address, so it alters no code address |
| Cursor.CursorInit | src/cursor.rs:152-222 | result codes, the walk that is set up, its pointer-auth mask included, and that a failure leaves the pool as it was |
| Cursor.CursorFini | src/cursor.rs:393-402 | releases the slot of a live cursor, changes nothing for any other, and leaves a dead cursor |
| Registry.LookupIsLatestBinding | src/modules/mod.rs:272-299 | looking up e gives k exactly when a registration of k under e has no later registration of e, re-registration of k or removal of k |
| Registry.StaleEhRemovesNothing | src/modules/mod.rs:320-328 | deregistering a stale eh_frame address changes nothing; a bound one removes exactly its key |
| Registry.AfterInverse | src/modules/mod.rs:54-59 | after any JIT events the two eh_frame maps are inverses of each other, into the JIT keys |
| RegistryRefresh.RefreshExact | src/modules/mod.rs:106-168 | a refresh that finds no new usable and no changed object at a JIT key, and is misled by no fingerprint, leaves exactly the usable loaded objects and the JIT modules published, each key once, in whatever order it walks its hash maps, also when it returns early |
| RegistryRefresh.NothingChanged | src/modules/mod.rs:143-149 | the early return that leaves static_mods unchanged still tracks the scan |
| RegistryRuns.PublishedExactly | src/modules/mod.rs:49-59 | after any run of loads, unloads, refreshes and JIT events in which keys stay apart and no fingerprint hides a usable object, published is exactly the usable objects of the last scan and the JIT modules |
| RegistryRuns.RefreshMissesNothing | src/modules/elf.rs:215-241 | whenever a refresh returns, also by skipping on equal counts, with loads and unloads anywhere between count read and scan, published is exactly the usable objects loaded then and the JIT modules |
| RegistryRuns.AddJitExactIff | src/modules/mod.rs:272-281 | registering at a key keeps what is published exact, and each key published once, if and only if no usable scanned object has it |
| RegistryRuns.RefreshAtJitKey | src/modules/mod.rs:150-165 | what a refresh leaves at a JIT key: the JIT module unless a changed object has the key, and the object's module if that is new and usable |
| RegistryRuns.RefreshExactIff | src/modules/mod.rs:126-165 | a refresh keeps what is published exact if and only if it finds no new usable and no changed object at a JIT key and no fingerprint hides a usable object; and each key published once if and only if every new object at a JIT key is a changed one |
| RegistryRuns.ExactThroughoutIff | src/modules/mod.rs:106-328 | over any run from the start, what is published is exact all along if and only if both conditions hold in every step |
| RegistryRuns.SourceAssumesEnough | src/modules/mod.rs:4-8 | the source's assumptions, disjoint keys and distinguishing fingerprints, imply both conditions |
| RegistryFailures.RefreshKeepsKeyIff | src/modules/mod.rs:150-165 | a refresh that finds nothing loaded at a key keeps the very modules published there if and only if the key is a JIT key, or not a static one, or nothing is published there |
| RegistryFailures.StaleModuleStays | src/modules/mod.rs:158-165 | in any run, what is published at a key that is a JIT key or not a static one stays the same, through any number of refreshes, until code is registered or deregistered or an object is scanned there |
| RegistryFailures.StaleRun | src/modules/mod.rs:158-164 | the run: load, refresh, unload, register code at the same key, refresh; both modules are then published, and deregistering the code leaves one of them |
| RegistryFailures.DroppedRun | src/modules/mod.rs:151-153 | the other run: scan an object without unwind information, register code at its key, replace the object by another of the kind, refresh; the code stays registered and nothing is published for it |
| RegistryObject.Registry.AddJitModule | src/modules/mod.rs:272-290 | the object's new state is the one specified for registering a JIT module |
| RegistryObject.Registry.ForgetJitEhFrame | src/modules/mod.rs:293-299 | likewise for dropping a key's eh_frame mapping |
| RegistryObject.Registry.RemoveJitLocked | src/modules/mod.rs:303-312 | likewise for removing a JIT module by key |
| RegistryObject.Registry.RemoveJitModuleByEhFrame | src/modules/mod.rs:321-328 | likewise for removing it by eh_frame address |
| RegistryObject.Registry.Refresh | src/modules/mod.rs:106-168 | skips on equal counts or a failed enumeration, else leaves a state that the specification of a refresh allows |
| RegistryObject.Registry.MacBeginBatch | src/modules/mod.rs:206-208 | opens a batch and changes nothing else |
| RegistryObject.Registry.MacEndBatch | src/modules/mod.rs:212-227 | inserts and publishes everything pending |
| RegistryObject.Registry.MacAddImage | src/modules/mod.rs:231-245 | records or publishes one image |
| RegistryObject.Registry.MacRemoveImage | src/modules/mod.rs:250-264 | drops one image from the pending list and from what is published |
| MacImages.BatchEqualsIff | src/modules/mod.rs:206-264 | batching always gives the same registry as handling each event, and the same published modules if and only if each key is added at most once since its last removal, and not at all while present from before |
| MacImages.BatchEqualsOneByOne | src/modules/mod.rs:206-264 | so for well-formed dyld events, batching and publishing once gives the same registry and the same published modules as handling each event |
| MacImages.RepeatedAddDiffers | src/modules/mod.rs:219-226 | a repeated add, which dyld does not report, is published twice by a batch |
| Elf.DecodeInvertsEncode | src/modules/elf.rs:265-326 | for every fixed-width format, absolute or pc-relative, and every header address, a representable target decodes to itself |
| Elf.DecodedIsEncoded | src/modules/elf.rs:265-326 | a header decodes to a target only if it is an encoding of it |
| Elf.ValueUnique | src/modules/elf.rs:287-326 | a decoded value is one the format can hold, stored in those very bytes |
| Elf.ScanHeaders | src/modules/elf.rs:94-121 | the union of the loadable segments, the first executable one and the last eh_frame_hdr |
| Elf.ContainingSegmentEnd | src/modules/elf.rs:243-256 | the end of a loadable segment that contains the address, or none if none does |
| Elf.Extract | src/modules/elf.rs:150-210 | a module is built exactly if the header decodes into a segment; its .eh_frame is not empty and lies inside one segment and inside the module's range |
| Elf.Callback | src/modules/elf.rs:79-213 | what one object contributes: its fingerprint under its key, and a module unless it is already known |
| ElfScan.Enumerate | src/modules/elf.rs:40-63 | over all loaded objects: the fingerprint of each under its key, and a spec, with that object's own sections, for exactly the usable ones not known with that fingerprint |
| ElfScan.SpecsAreTheNew | src/modules/elf.rs:143-150 | the specs' keys are the registry's new keys, each once |

## Left out

- framehop and gimli internals: rule lookup, CFI evaluation, the rule cache and FDE parsing are an arbitrary function or out of the model.
- Weak memory beyond stale first loads: the other accesses interleave sequentially consistently.
- Runs in which a slot's sequence was bumped more than 2^64 + 1 times: some are unsafe (`WrapBreaksSafety`); which are not is not said.
- An unwinder that asks for stack words for ever: each unwind gives up after an arbitrary but fixed number of reads.
- Capturing contexts, register extraction and stack bounds queries: their results are parameters.
- Mach-O and PE parsing, the vDSO scan and the JIT argument checks: only their results reach the model.
- The hash that makes fingerprints: they are arbitrary numbers, and collisions are covered.
- Wrap-around of the loader's load and unload counts.
- Poisoned mutexes, fork, fault recovery by longjmp, allocation failure.
