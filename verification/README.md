# Wasman: a verified model of durable execution

Wasman runs WebAssembly guests that survive crashes. A guest calls `checkpoint`; the engine swaps the
version in the instance's metadata and then saves either the whole linear memory or the 4096-byte blocks
whose hash changed. A restart reads metadata, snapshot and blocks back, rebuilds the memory and the hash
table, and calls the guest again. Host calls are logged so that a restarted guest is answered from the log.

This project models that protocol and proves what it keeps: over every memory, every crash point, every
interleaving of sessions and every sequence of store operations. `dafny verify dfyconfig.toml` checks all of it.

| file | what it holds |
|---|---|
| `Bytes`, `Fnv`, `Blocks` | bytes, the FNV-1a hash, memory as blocks: overlaying, growing, restoring |
| `Protocol` | what a store holds for an instance; checkpoint (after any number of its writes) and restore as functions |
| `Exactness`, `History` | when a checkpoint restores exactly: one checkpoint at every crash point, then whole sessions |
| `Runner` | the guest's step loop, and the machine of a host that crashes and restarts |
| `Overwrites`, `Concurrency`, `Quiescence` | writes over what something else stored; any number of sessions on one instance, at every moment and whenever nobody saves |
| `MemoryStore`, `FileStore`, `Stores` | two stores as classes, each proved against `Protocol`, and run side by side |
| `Engine`, `HostCalls`, `Isolation` | the session on the heap: restore, checkpoint, logged host calls, and their separation from the store |
| `Oplog`, `Workflow` | recording, replay and truncation of host calls; workflows whose steps make them |
| `EtagCas` | the S3 compare-and-swap against the version-number one |
| `Registry` | engines, the module registry and the compiled-module cache |
| `Streams`, `ActiveIndex` | the stream handlers, and the index of active instances |

## Main results

- **Crash-resume refinement** (`Runner.CrashResumeRefines`). Under every schedule of crashes, restarts, stops inside
  a checkpoint and dropped truncation errors: a run that ends has the code and the memory of an uninterrupted run, step k
  starts only when exactly the k steps before it are durable, and the store holds the memory of the last durable step,
  at every moment, if and only if the checkpoints are safe. `Runner.ProgramSafeIff` turns that into an exact condition on
  the program alone.
- **Exact restoration** (`History.SessionExactIff`, `History.LifetimeExactIff`). Every checkpoint of a session, and of all
  the sessions of an instance's lifetime, restores the live memory if and only if a condition on the history of memories
  alone holds; `History.StaleTableIsReachable` shows the condition is needed.
- **Crash points** (`Exactness.CrashPoint`). After any number of the writes of a checkpoint, the store restores the
  previous memory, or the new one exactly when the stop is safe.
- **One linear history** (`Quiescence.LinearWhenQuietIff`). Sessions of any number of engines and modules interleave read
  by read and write by write, with nobody opening while a session with the newest version saves. Whenever nobody saves, the
  store restores what the last winner to write has saved, and every session that could win next works on exactly that, if
  and only if every checkpoint that ends leaves room for its memory and, if incremental, detects every change; and every
  checkpoint that stops for good, because its host dies or a truncation fails, stops at a safe point.
- **The same at every moment** (`Concurrency.LinearIffSafe`), in the middle of checkpoints and with sessions that open
  there, if and only if: what a session with the newest version has read, before and after whatever writes, fits together;
  a winner's module has room for what is saved; a holder's data write is exact as it stands, and any other holder that has
  read everything has read that very memory; a session that was overtaken writes only what is saved already; and a
  truncation drops only blocks that the snapshot has. A later full checkpoint over changed blocks is not exact as it stands
  (`Concurrency.WindowIsNotLinear`), so this form is for histories without one.
- **Replay determinism** (`Oplog.ReplayDeterminism`), also after a truncation (`Oplog.ReplayAfterCut`), and **uniqueness**
  of the oplog: which entries can repeat at all (`Oplog.LogStaysUnique`), and exactly when one does (`Oplog.AlwaysUniqueIff`).
- **What resumed steps are answered** (`Workflow.ResumedCallsAreAnsweredByPosition`): which logged answer every API call of
  a workflow gets after any number of crashes, by position, name and whatever truncations went through.
- **ETag against version** (`EtagCas.EtagAgreesIff`). On every run, deletes included, both forms answer alike if and only
  if no save is made with the stored version and another object's ETag; without deletes that never happens.
- **Two stores, one behaviour** (`Stores.RunSideBySide`, `Stores.RunNewStores`), **snapshot isolation on the heap**
  (`Isolation.Drive`), **registry closure** (`Registry.ResumeFindsItsModule`), **stream conservation**
  (`Streams.StreamsConserve`).
- **The active index as a map** (`ActiveIndex.IndexIsAMapIff`), and the list against one object per instance
  (`ActiveIndex.ObjectsHoldTheList`), each with its exact condition.

## Where the code decides

The model follows the code where the documentation says something else, or says nothing:

- Blocks are 4096 bytes (`wasman.go:141`); `README.md:61` of the repository speaks of 64 KB pages.
- A full snapshot does not refresh the hash table (`wasman.go:124-138`). The next incremental checkpoint of the same
  session compares with the table from before it, so a change that was undone across a full snapshot is lost:
  `History.StaleTableLosesChange` proves it for every pair of different memories.
- The metadata is swapped before the data is written (`wasman.go:97-173`). A host that stops in between leaves a new
  version over the old memory, which is safe for a later session (`Exactness.CrashPoint`). A session that opens and reads
  during the checkpoint can win next from a memory that is no longer saved: `Concurrency.OpeningInsideACheckpointIsUnsound`
  is such a run.
- After a checkpoint by another engine the next session instantiates another module. It restores the same memory if and
  only if its own fresh memory is no longer (`Exactness.OtherModuleRestoresTheSame`).
- The page count for growing memory is cut to 32 bits (`wasman.go:491`, `wasman.go:534`). `Engine.GrowthCoversIff` says
  when the growth still makes room; `Engine.WrappedCountGrowsNothing` gives a block index at which it makes none.
- Errors of the two truncations are dropped (`wasman.go:136-137`): the events `Save` of `Runner` and `Drop` of `Concurrency`.
- The step counter is in linear memory and moves before every checkpoint (`runner/runner.go:129-132`). Once its block has
  been saved, every stop between a later snapshot and the delta truncation is unsafe (`Runner.CounterBlockKeepsWindowOpen`).
- The call index is not saved (`wasman.go:430-440`): `Oplog.SkippingGuestGetsOlderAnswers` and
  `Workflow.ResumedCallsAreAnsweredByPosition` state what a guest that skips finished work is answered.
- Ranges of guest memory are checked in 64 bits and their ends added up again in 32 (`wasman.go:233-243`,
  `session.go:73-100`), which panics from an end of 2 GiB on: `HostCalls.WrapsIff`.
- A checkpoint records the hash of the engine that runs it, not of the module that runs (`wasman.go:98`):
  `Registry.TakeoverSwitchesModules`.
- A log entry for the clock can share its call index with an API of the same name whose response is not a time:
  `Oplog.ClockNamesakeIsLoggedTwice`.
- The S3 index stores info without decoding it and fails to load if one object does not decode; the list forms
  refuse such an update (`memory_store.go:210-213`, `s3_store.go:450-454`): `ActiveIndex.UndecodableInfoPartsThem`.
- The info of a completing update is never looked at (`memory_store.go:217-222`), so only listed info has to carry its own id;
  info whose id is missing or not a string is listed and never matched.

## Model

| member | source | states |
|---|---|---|
| Fnv.PrimeIsInvertible | wasman.go:144-154 | multiplication by the FNV prime is injective modulo 2^64 |
| Fnv.MixIsInjective | wasman.go:144-154 | one hash round never merges two states under one byte, nor two bytes under one state |
| Fnv.OneByteChangeIsDetected | wasman.go:151-162 | sequences of equal length that differ in exactly one position always hash differently |
| Fnv.HashesInOrder | wasman.go:152-154 | hashing two parts is hashing the second from where the first ended |
| Fnv.TestVectors | wasman.go:144-154 | the published hashes of no bytes and of the byte "a" |
| Blocks.BlocksDetermineMemory | wasman.go:141-151 | memories of equal whole-block length are equal iff all their blocks are |
| Blocks.BlockOfOverlay | wasman.go:550-556 | after overlaying, each block is the saved one if there is one, else the old one |
| Exactness.RestoreAfterMoreBlocks | wasman.go:521-557 | merging more blocks into the stored ones restores what overlaying them on the restored memory gives, growth included |
| Exactness.OverlayKeepsTable | wasman.go:549-556 | overlaying any full-size blocks and entering their hashes keeps a right table right |
| Exactness.OpenTableMatches | wasman.go:507-556 | the hash table built while restoring is exactly the table of the restored memory |
| Exactness.OtherModuleRestoresTheSame | wasman.go:485-558 | another module restores the same memory from a stored instance iff its own fresh memory is no longer, and the invariant then holds for it too |
| Exactness.CasIsVersionMatch | memory_store.go:142-165 | on every stored instance the swap succeeds iff the versions match |
| Exactness.DeltaExactIffDetects | wasman.go:140-172 | saved blocks plus dirty blocks restore live memory iff no block is wrongly taken to be clean |
| Exactness.LeftoverRestore | wasman.go:124-138 | a new snapshot under left-over blocks restores it iff every left-over block equals the snapshot's block |
| Exactness.FullCheckpointExact | wasman.go:124-138 | a completed full checkpoint restores live memory, with no side condition |
| Exactness.DeltaCheckpointExact | wasman.go:139-173 | a completed incremental checkpoint restores live memory, grown memory included, iff it detects every change |
| Exactness.CrashPoint | wasman.go:97-173 | after any number n of writes the store invariant holds; below 2 writes the previous memory is restored, from 2 on the new one iff the stop is safe |
| Exactness.OpenedIsUpToDate | wasman.go:383-440 | a session opened on any stored instance meets what the next checkpoint needs |
| Exactness.FirstCheckpointDetects | wasman.go:507-557 | for a session's first incremental checkpoint the condition is just that no compared blocks collide, and conversely |
| Exactness.StaysUpToDate | wasman.go:121-173 | a checkpoint that ends, exact or not, its truncation done or dropped, leaves the session fit for the next one, and restores live memory if it was safe |
| Exactness.CheckpointStep | wasman.go:97-173 | one completed checkpoint: invariant kept, version up by one, length right, exact iff safe, and the session up to date |
| History.SessionExactIff | wasman.go:121-173 | all checkpoints of a session are exact iff the history of its memories is free of misses, also across full snapshots |
| History.SessionEnds | wasman.go:121-173 | a session, exact or not, leaves a store in order for the next one, with versions up by one per checkpoint |
| History.SessionExactEnds | wasman.go:121-173 | a session without misses leaves its last memory stored |
| History.LifetimeExactIff | wasman.go:121-558 | over any number of sessions, each opened on what the one before left, all checkpoints are exact iff the history of memories is free of misses |
| History.OneBytePerBlockIsDetected | wasman.go:144-162 | blocks that change by at most one byte never collide |
| History.StaleTableLosesChange | wasman.go:124-138 | whatever the two memories, a change taken by a full snapshot and then undone is not saved: the store goes on restoring the undone memory |
| History.StaleTableIsReachable | wasman.go:121-173 | for every two different memories there is a run from an empty store with four checkpoints, a restart and two more that ends so |
| Runner.WithCounter | runner/runner.go:119-131 | writing the 32-bit counter into memory and reading it back is the identity, and no other byte changes |
| Runner.TurnKeepsMemory | runner/runner.go:125-132 | one turn of the loop keeps guest memory well-formed, never shrinks it, and advances the counter by exactly one iff the step succeeds |
| Runner.RunContinues | runner/runner.go:122-135 | the run continued from any durable step gives the result of the whole run |
| Runner.AfterRunsTheSteps | runner/runner.go:125-131 | the reference run after k + 1 steps is step k run on the memory after k steps, with the counter advanced, and there is none iff that step fails |
| Runner.RunFromRunsTheSteps | runner/runner.go:124-135 | a run from any memory runs the step that the counter names and goes on from there, or ends with 0 when there is none, or with -1 and what a failing step wrote |
| Runner.Run | runner/runner.go:122-135 | every checkpoint's memory is the step that the counter names, run on the one before, with the counter advanced; code 0 iff all steps are done, and otherwise -1 with what the next step wrote when it failed; continued from any checkpoint the run ends the same |
| Runner.WritesKeepHost | wasman.go:97-173 | a checkpoint of a running guest that gets through any number of writes restores the step before it, or the step itself iff the stop is safe |
| Runner.NextKeepsHost | wasman.go:90-180 | every event of the crashing host, its checkpoints safe, keeps store, session, hash table and log tied to the uninterrupted run |
| Runner.UnsafeWritesAreUnfaithful | wasman.go:121-173 | after one unsafe checkpoint the store no longer holds the durable step of the uninterrupted run |
| Runner.CrashResumeRefines | runner/runner.go:120-135 | for every schedule: at every moment ended runs equal the uninterrupted run, the store holds its memory at the last durable step, and steps start and become durable in order, iff every checkpoint is safe |
| Runner.SafeScheduleGoesOn | runner/runner.go:122-135 | a safe schedule never gets stuck: after any prefix, whatever is enabled can happen |
| Runner.DetectedStepsAreSafe | wasman.go:121-173 | a program whose neighbouring step memories hide no change is safe under every schedule that does not stop between a later snapshot and the delta truncation with disagreeing blocks |
| Runner.ProgramSafeIff | wasman.go:121-173 | all those schedules are safe iff no change hides between neighbouring steps from the second on, nor across a full snapshot from the third on |
| Runner.CounterBlockKeepsWindowOpen | runner/runner.go:129-132 | once the counter's block is among the saved ones, every stop between a later snapshot and the delta truncation is unsafe |
| Overwrites.SnapshotKeepsIff | wasman.go:124-132 | a snapshot written over whatever is stored keeps what is restored iff it is no longer and has every block of it that is not saved separately |
| Overwrites.BlocksKeepIff | wasman.go:165-170 | blocks merged into whatever is stored keep what is restored iff they are its own blocks |
| Overwrites.TruncationKeepsIff | wasman.go:137 | dropping the saved blocks keeps what is restored iff they are the snapshot's own |
| Overwrites.ReadFitsIff | wasman.go:486-522 | a snapshot read before and blocks read after some writes restore what is stored, with a right table, iff every block that is not saved separately is the snapshot's |
| Concurrency.VersionsAreNumbered | memory_store.go:142-165 | in every interleaving the stored version counts the wins, and win k made version k |
| Concurrency.LosingIsBeingBehind | memory_store.go:142-165 | a session loses the swap iff it does not hold the newest version |
| Concurrency.LosersNeverWin | wasman.go:97-107 | a session that is behind once never wins again, in every continuation of every run |
| Concurrency.WinnerRestores | wasman.go:97-173 | the data of a checkpoint is restored by the winner's own module iff that module has room and the stop is safe |
| Concurrency.WritesAreTheProtocols | wasman.go:121-173 | each single write of a checkpoint is the protocol's next one, oplog truncation included, and all of them are the whole |
| Concurrency.WriteStoreOk | wasman.go:121-173 | one write, of a holder or of an overtaken session, leaves the store in order and restoring what was last saved iff it is safe for the store |
| Concurrency.ReaderOkIff | wasman.go:486-522 | a session that has read everything is up to date with the store iff what it read fits together |
| Concurrency.NextLinearIff | wasman.go:97-173 | one event, a single read or write of one session, keeps the history linear iff it is safe |
| Concurrency.LinearIffSafe | wasman.go:97-173 | every interleaving of single reads and writes, deaths and dropped truncations included: the history is linear at every moment, also inside a checkpoint, iff every event is safe |
| Concurrency.LinearMeansOneMemory | wasman.go:383-522 | in a linear history, whoever can win next works from exactly what the last winner to write has saved, although it read in three steps |
| Concurrency.ConsiderateLinearIff | wasman.go:97-173 | every run in which nobody opens while a holder of the newest version saves is linear at every moment, also inside a checkpoint, iff every winner's module has room and every data write is exact as it stands |
| Concurrency.WindowIsNotLinear | wasman.go:124-138 | between a later snapshot and the delta truncation the store restores what is saved only if the blocks saved before are the snapshot's |
| Quiescence.OnlyWriteEnds | wasman.go:139-173 | a checkpoint with one data write leaves store and session in order iff there is room and, if incremental, it detects every change |
| Quiescence.FullEnds | wasman.go:124-138 | a later full checkpoint leaves them in order iff there is room, whatever the blocks before it were |
| Quiescence.FullEndsUntruncated | wasman.go:136-137 | one whose delta truncation is dropped, or whose host dies before it, iff there is room and the blocks agree with the snapshot |
| Quiescence.NextCalmIff | wasman.go:97-173 | one event of a run in which nobody opens into a checkpoint keeps it linear whenever nobody saves iff it ends or stops its checkpoint well |
| Quiescence.LinearWhenQuietIff | wasman.go:97-173 | every such run is linear whenever nobody saves iff all its checkpoints end or stop well |
| Concurrency.OpeningInsideACheckpointIsUnsound | wasman.go:97-132 | a run of nine events after which a session holds the newest version and works from the fresh memory, while another memory is saved, whatever that is |
| MemoryStore.CopyOf | memory_store.go:37-39 | a copy is a new array with equal contents |
| MemoryStore.CopyBlocks | memory_store.go:70-75 | every block is copied into a new array, in whatever order the map is visited |
| MemoryStore.Filter | memory_store.go:131-138 | the loop keeps exactly the entries after the given call index, in order, and makes no new slices |
| MemoryStore.MemorySnapshotStore.constructor | memory_store.go:23-32 | a new store holds nothing for any instance or hash |
| MemoryStore.MemorySnapshotStore.Save | memory_store.go:34-41 | only this instance's snapshot changes, to a private copy |
| MemoryStore.MemorySnapshotStore.Load | memory_store.go:43-51 | the stored snapshot, as the store's own slice |
| MemoryStore.MemorySnapshotStore.Delete | memory_store.go:53-61 | nothing is left of this instance, all others keep everything |
| MemoryStore.MemorySnapshotStore.SaveDeltas | memory_store.go:63-77 | private copies of the blocks replace or join the stored ones; nothing else changes |
| MemoryStore.MemorySnapshotStore.LoadDeltas | memory_store.go:79-91 | the stored blocks, empty if there are none |
| MemoryStore.MemorySnapshotStore.TruncateDeltas | memory_store.go:93-98 | no blocks are left; nothing else changes |
| MemoryStore.MemorySnapshotStore.SaveOplog | memory_store.go:100-116 | one entry is appended, with private copies of request and response |
| MemoryStore.MemorySnapshotStore.LoadOplog | memory_store.go:118-126 | the entries in the order they were logged |
| MemoryStore.MemorySnapshotStore.TruncateOplog | memory_store.go:128-140 | exactly the entries at or below the index go, the rest keep their order |
| MemoryStore.MemorySnapshotStore.SaveMetadata | memory_store.go:142-165 | succeeds iff the compare-and-swap rule allows it; then record and caller advance by one version, otherwise nothing changes |
| MemoryStore.MemorySnapshotStore.LoadMetadata | memory_store.go:167-180 | the stored record, if any |
| MemoryStore.MemorySnapshotStore.SaveWasm | memory_store.go:182-189 | a private copy under this hash; other modules and all instances unchanged |
| MemoryStore.MemorySnapshotStore.LoadWasm | memory_store.go:191-199 | the registered bytes, or absent |
| FileStore.PathIsInjective | fs_store.go:21-30 | file names determine kind and instance id, whatever the ids |
| FileStore.WasmPathIsApart | fs_store.go:288-304 | no module file is ever an instance file |
| FileStore.Merged | fs_store.go:67-69 | the merge loop gives the stored blocks overridden by the new ones |
| FileStore.FileSnapshotStore.constructor | fs_store.go:12-16 | a store over a directory without files holds nothing for any instance or hash |
| FileStore.FileSnapshotStore.Save | fs_store.go:21-35 | only this instance's snapshot changes |
| FileStore.FileSnapshotStore.Load | fs_store.go:37-49 | the stored snapshot, if any |
| FileStore.FileSnapshotStore.SaveDeltas | fs_store.go:51-79 | the new blocks replace or join the stored ones; nothing else changes |
| FileStore.FileSnapshotStore.LoadDeltas | fs_store.go:81-102 | the stored blocks, empty if there is no file |
| FileStore.FileSnapshotStore.TruncateDeltas | fs_store.go:104-113 | no blocks are left; nothing else changes |
| FileStore.FileSnapshotStore.SaveOplog | fs_store.go:115-146 | one entry is appended |
| FileStore.FileSnapshotStore.LoadOplog | fs_store.go:148-169 | the entries in order, empty if there is no file |
| FileStore.FileSnapshotStore.TruncateOplog | fs_store.go:171-208 | exactly the entries at or below the index go; a missing file stays missing |
| FileStore.FileSnapshotStore.SaveMetadata | fs_store.go:210-244 | the same compare-and-swap as in the memory store |
| FileStore.FileSnapshotStore.LoadMetadata | fs_store.go:246-266 | the stored record, if any |
| FileStore.FileSnapshotStore.Delete | fs_store.go:268-286 | nothing is left of this instance, all others and all modules keep everything |
| FileStore.FileSnapshotStore.SaveWasm | fs_store.go:288-304 | a module is written only if its hash is new |
| FileStore.FileSnapshotStore.LoadWasm | fs_store.go:306-318 | the registered bytes, or absent |
| Stores.DoInMemory | memory_store.go:34-180 | every operation of the memory store has the abstract answer and effect, on its own instance only |
| Stores.DoOnFiles | fs_store.go:21-286 | every operation of the file store has the abstract answer and effect, on its own instance only |
| Stores.RunSideBySide | fs_store.go:21-318 | over every sequence of requests both stores give the abstract store's answer at every step, and every instance and module depends only on the requests that name it |
| Stores.RunNewStores | memory_store.go:23-32 | the same from two new stores, every answer by the requests alone |
| Engine.OverlayOneMore | wasman.go:550-556 | copying one more block in, at any point of the iteration, is overlaying one more block |
| Engine.Session.constructor | wasman.go:430-440 | a session starts with an empty table and call index 0 |
| Engine.GrowthCoversIff | wasman.go:489-498 | the growth makes room for the bytes iff the page count fits 32 bits or the room was there |
| Engine.GrowthMakesSlicesLegal | wasman.go:531-552 | if the count fits, every slice of every block map is in bounds |
| Engine.WrappedCountGrowsNothing | wasman.go:531-535 | a block index for which nothing is grown and the slice is out of range |
| Engine.Session.GrowTo | wasman.go:489-498 | memory is grown with zero pages to the 32-bit page count, or left alone iff the limit forbids it |
| Engine.Session.HashBlocks | wasman.go:507-517 | the loop adds the hash of every block to the table |
| Engine.LargestIndex | wasman.go:525-530 | the scan finds the largest index, or 0 |
| Engine.Session.OverlayBlocks | wasman.go:549-556 | in every iteration order memory and table end up the same; it fails iff a slice is out of range |
| Engine.CopiedOverByte | wasman.go:505 | a snapshot copied over memory gives its bytes as far as there is room, and leaves the rest |
| Engine.Session.RestoreSnapshot | wasman.go:485-519 | the snapshot over fresh memory, and its table, for every size; fails iff the memory limit is in the way |
| Engine.Session.RestoreDeltas | wasman.go:521-558 | the stored blocks over that, grown as needed, with the exact conditions of both failures; the store is untouched |
| Engine.Session.Restore | wasman.go:482-558 | whenever 32-bit page counts can express the sizes, memory and table are exactly what the protocol restores, and it fails iff the memory limit is in the way |
| Engine.Session.DirtyBlocks | wasman.go:140-163 | new copies of exactly the blocks whose hash is missing or different, and a refreshed table |
| Engine.Session.SaveFull | wasman.go:124-138 | snapshot, then oplog truncation, then delta truncation, stopping after any of them |
| Engine.Session.SaveDirty | wasman.go:139-173 | the dirty blocks join the stored ones, the table is refreshed, and nothing else changes |
| Engine.Session.Checkpoint | wasman.go:90-173 | conflict iff the swap is refused, and then nothing is stored; otherwise the record keeps all but hash and version, snapshot, oplog and blocks are written or cut at exactly these versions and write counts, and the session is as after the protocol's step |
| HostCalls.FindResponse | wasman.go:248-262 | the scan returns the response of the first entry with this call index and name, or nothing |
| HostCalls.FindTime | wasman.go:191-204 | the scan returns the first logged time that parses, passing over those that do not |
| HostCalls.HostGetTime | wasman.go:183-216 | the first logged time of this call index, with the log as it was, or else the time now, logged in decimal |
| HostCalls.WrapsIff | wasman.go:233-243 | a range can pass the check and panic iff the memory has 2 GiB or more |
| HostCalls.HostCallApi | wasman.go:219-299 | panics iff a range that passes its check ends beyond 32 bits, and then nothing changes; otherwise the response is the first logged one of this index and name, or else the handler's, logged with the request; the code is -1 without one, -2 iff it exceeds the buffer, else its length; its bytes are in guest memory at the pointer iff they fit there, and no other byte changes |
| Isolation.Call | wasman.go:219-299 | an API call, its request handed to the store as the live slice, leaves store and session as value semantics says, and memory apart from the store; it ends the run iff it panics |
| Isolation.Do | wasman.go:90-299 | so does every act of a guest: a write, a growth, a clock call, an API call, a checkpoint |
| Isolation.Drive | wasman.go:126-160 | over every sequence of acts the heap ends in the state of the value machine: no write to live memory reaches a snapshot, block or log entry, and no other instance changes |
| Isolation.PrivateActsReachNothing | wasman.go:126-160 | whatever a guest does to its own memory, what is stored stays what the last save left |
| Oplog.DecimalRoundTrip | wasman.go:197-210 | printing and parsing a 64-bit integer is the identity |
| Oplog.FormatIsCanonical | wasman.go:210 | a sign exactly for negative numbers, digits, and no leading zero |
| Oplog.ApiCallMeans | wasman.go:248-298 | whose response an API call comes to, its code, what is delivered, and what is logged with which request |
| Oplog.ClockCallMeans | wasman.go:191-215 | a clock call is answered by the first logged time of its index, or else live and logged |
| Oplog.LookupIsStable | wasman.go:245-262 | a logged answer stays the answer whatever is appended |
| Oplog.HostIsReplayable | wasman.go:183-299 | whatever a call leaves in the log answers the same call with the same reply |
| Oplog.RunIsReplayable | wasman.go:183-299 | after a whole run, every answer found in its log is the reply it gave, and every clock call has one |
| Oplog.LoggedCallsAreReplayed | wasman.go:245-262 | a call that the log answers at the start of a run gets that answer, without the handler |
| Oplog.UnloggedCallsAreLive | wasman.go:264-298 | a call that the log does not answer at the start of a run is answered live, whatever the run has logged before it |
| Oplog.AnswersAreLookedUp | wasman.go:245-298 | every reply of a run is what the log says at its start, and the handler is used exactly where it says nothing |
| Oplog.ReplayDeterminism | wasman.go:183-299 | a guest that re-issues its calls gets the same replies for all logged calls, without the handler, whatever was appended in between and whatever the world would say |
| Oplog.ReplayAfterCut | wasman.go:134-138 | after a truncation it gets its first reply, without the handler, exactly for the logged calls above the cut, and live ones for the rest |
| Oplog.TruncationIsExact | memory_store.go:128-140 | as multisets: entries at or below the index all go, every other entry stays as often as it was |
| Oplog.TruncationKeepsOrder | memory_store.go:128-140 | truncation distributes over concatenation, so what stays keeps its order |
| Oplog.LaterCallsSurviveTheCut | wasman.go:134-138 | nothing that a session logs after a truncation is dropped by it |
| Oplog.LogStaysUnique | wasman.go:183-291 | under all calls, restarts and truncations, entries with the same call index and name are named like the clock, the earlier not a time and the later one a time |
| Oplog.UniqueUnlessDoubled | wasman.go:191-262 | one event keeps the log unique iff it is not a clock call on an entry of that index and name that is not a time |
| Oplog.AlwaysUniqueIff | wasman.go:191-262 | over every run the log is unique at every moment iff no clock call doubles an entry |
| Oplog.UniqueWithoutNamesakes | wasman.go:191-291 | without an API named like the clock nothing is ever logged twice |
| Oplog.ClockNamesakeIsLoggedTwice | wasman.go:191-215 | a run of two calls in which the clock repeats the entry of an API of its name |
| Oplog.SkippingGuestGetsOlderAnswers | wasman.go:245-262 | after skipping its first calls, a guest's k-th call is answered with its original k-th answer, without the handler, iff the names agree, and live otherwise |
| Workflow.CutsAreInvisible | wasman.go:134-138 | a session's own truncations do not show in its replies, and its log is the uncut one, cut once |
| Workflow.CutIsAtTheLastFull | wasman.go:122-138 | if all truncations go through, that one cut is at the calls made up to the last version that is a multiple of five |
| Workflow.LogAnswers | wasman.go:245-291 | what the log that any number of stopped sessions leave answers for a call: the earliest answered call of that position and name since it was last cut |
| Workflow.StoppedSessionIsPast | wasman.go:134-138 | a session stopped at any call of any step, whatever of its truncations went through, adds its calls, its answers and one cut to that past |
| Workflow.ResumedCallsAreAnsweredByPosition | runner/runner.go:120-135 | after any number of crashes, the k-th call of the resumed steps gets the answer logged for a k-th call to an API of that name, without the handler, and is live iff there is none |
| Workflow.AfterOneSession | wasman.go:245-262 | after one stopped session that answer is its own k-th, iff the names agree, it was answered and it lies above the cut |
| Workflow.AfterAFullCheckpointCallsAreLive | wasman.go:134-138 | a call at or below the last cut is live, and so is every call if the last session was cut at its last call and none before it made more |
| EtagCas.S3SnapshotStore.SaveMetadata | s3_store.go:321-364 | succeeds iff the object is absent for version 0, and otherwise has the held ETag; then it holds the caller's record, field by field, one version on and without an ETag; other objects keep body and ETag |
| EtagCas.S3SnapshotStore.LoadMetadata | s3_store.go:367-385 | the object's body with its ETag, if it exists |
| EtagCas.SavedRecordIsLoaded | s3_store.go:329-384 | what is loaded after a save is the caller's record, field by field, one version on, with the new ETag |
| EtagCas.S3SnapshotStore.Delete | s3_store.go:415-434 | this instance's metadata object goes, all others keep body and ETag |
| EtagCas.SaveAgrees | s3_store.go:321-364 | in lockstep, the two saves answer alike iff the save is not stale, and then stay in lockstep |
| EtagCas.EtagAgreesIff | s3_store.go:321-434 | on every run of any number of clients, deletes included, both forms give the same answers iff no save is stale, and store the same record as long as none is |
| EtagCas.EtagRefinesVersion | s3_store.go:321-385 | on every run without Delete both forms give the same answers and store the same record |
| EtagCas.DeleteTellsThemApart | s3_store.go:415-434 | a run of six events after which the version check lets an old client through and the ETag check does not |
| Registry.Create | wasman.go:47-65 | the module is registered before it is compiled, and stays registered if that fails; nothing else in the store changes |
| Registry.ModuleEngine.Open | wasman.go:383-428 | without metadata a fresh record and the own module; otherwise the stored record and, for its hash, the own module, the cached one, or the compilation of the registered bytes, which is then cached; a version mismatch iff nothing is registered, a compile failure iff it does not compile, with the cache as it was |
| Registry.ResolveIsFetchThenPublish | wasman.go:391-428 | that is the machine's two looks with nothing in between |
| Registry.NextKeepsClosed | wasman.go:391-420 | every step of every engine keeps recorded hashes registered and compilable, and cache entries the compilations of registered bytes |
| Registry.ResumeFindsItsModule | wasman.go:391-428 | in every run without hash clashes no execution fails to find its module, and it runs the compilation of bytes with the recorded hash |
| Registry.NeverAVersionMismatch | wasman.go:400-403 | even with hash clashes no execution ends in a version mismatch |
| Registry.CheckpointRecordsTheEngine | wasman.go:97-99 | after a checkpoint the next execution, on any engine, needs the checkpointing engine's module; one that loses the swap changes nothing |
| Registry.TakeoverSwitchesModules | wasman.go:98-99 | an engine that takes over an instance runs its old module until the first checkpoint and its own after that |
| Streams.StreamSession.HandleDownload | session.go:11-62 | state and code are those of one read, and its bytes are in guest memory at the pointer, with every other byte unchanged |
| Streams.StreamSession.HandleUpload | session.go:64-104 | state, code and flushed payload are those of one write or flush, or of a panic where the end of the range wraps |
| Streams.ReadToEnd | runner/runner.go:75-88 | a guest that reads until end of file receives exactly the handler's data, whatever its buffer |
| Streams.StreamsConserve | session.go:11-104 | over every sequence of calls, by the calls alone: a read delivers as many of the next bytes of the data once handed over as are left and fit, the handler is asked only before that, a write takes the bytes of guest memory, a flush hands over exactly those written since the last one, and all codes |
| Streams.NothingAfterTheEnd | session.go:12-14 | once a read has found nothing left, reads return 0 and ask nobody until a flush |
| ActiveIndex.IndexFile.UpdateActiveIndex | memory_store.go:201-237 | entries whose id is this string are replaced where they stand, or dropped, and if there is none the new one comes last; all others stay, those without an id included; undecodable info is refused |
| ActiveIndex.WithoutIsExact | memory_store.go:217-222 | dropping takes exactly the entries of the instance |
| ActiveIndex.WithoutKeepsOrder | memory_store.go:217-222 | and keeps the order of the rest |
| ActiveIndex.ObjectIndex.UpdateActiveIndex | s3_store.go:437-459 | the instance's object is written as it is, or deleted |
| ActiveIndex.ObjectIndex.LoadActiveIndex | s3_store.go:462-518 | all objects, once each, or failure iff one does not decode |
| ActiveIndex.UpdateKeepsOthersInPlace | fs_store.go:342-354 | an update leaves the other entries and their order alone |
| ActiveIndex.IndexIsAMap | memory_store.go:201-237 | over every run whose listed info carries its own id: one entry per instance at most, exactly the instances not completed last, with their latest info |
| ActiveIndex.IndexIsAMapIff | memory_store.go:201-237 | the list is the map of latest infos at every moment iff all listed info carries its own id |
| ActiveIndex.ObjectsHoldTheList | s3_store.go:437-459 | the bucket holds exactly the entries of the list, and as many, iff each instance's last update decodes or completes an unlisted instance |
| ActiveIndex.UndecodableInfoPartsThem | s3_store.go:437-459 | undecodable info: the list ignores the update, the bucket stores it or drops the object |
| ActiveIndex.ForeignInfoIsListedTwice | memory_store.go:217-229 | info that names another instance, or none, is never replaced, so the same update is listed twice |

## Left out

- wazero, WASI and compilation: a module is an uninterpreted function of its bytes, a guest step a function on memory, and a step's host calls are modelled apart from the step loop.
- gzip and JSON: files and objects are modelled as what they decode to, on the assumption that decoding undoes encoding.
- AWS plumbing: error classification, pagination and parallel fetching; a bucket is a map, an ETag is the number of the write that made the object.
- The S3 store's snapshots, blocks and oplog: an unguarded read-modify-write per object, which for a single writer repeats the file store.
- I/O errors of the file and S3 stores, except the dropped truncation errors.
- RunBPMN, the exchange buffers and the keep-alive session map: the restore code repeats ExecuteWithArgs; a kept session takes a new version without reloading memory, so the concurrency results are about cold sessions.
- runner_builder.go, the Workflow builder, RunTask, the stubs, examples and benchmarks: they would add only easy members.
- Contexts, logging, locks and wall-clock time: a locked method is one step, the time and the handlers' answers are inputs.
- Integer widths: lengths and pointers are unbounded, except the step counter, the page count and the ends of memory ranges (32 bits), the hash and the clock (64 bits), and the response pointer, which is taken as unsigned.
- Aliasing of the slices that Load, LoadDeltas, LoadOplog and LoadWasm hand out: callers must not write to them, and the engine does not.
- File names that a file system identifies although the strings differ, such as names with a slash or differing in case.
- Engine.Session.RestoreDeltas: block indices are not negative and blocks have at most 4096 bytes, as every checkpoint writes them.
- Engine.Session.Restore: promises nothing about stores whose sizes need more than 32 bits of pages; RestoreSnapshot and RestoreDeltas say what happens there.
- Runner.CrashResumeRefines: steps make no host calls, which Workflow adds, and are assumed to leave the runner's counter alone.
- Workflow.ResumedCallsAreAnsweredByPosition: steps call APIs only, not the clock.
- Quiescence.LinearWhenQuietIff: fresh memories are not empty.
- Oplog.LogStaysUnique: a host call is one atomic step, logging does not fail, and the clock is a 64-bit one.
- EtagCas.S3SnapshotStore.Delete: the metadata object only; the S3 store also deletes the instance's index object, which the list forms keep.
