# Lizard: a verified model

Lizard is an out-of-order RV64IM core described at register-transfer level, most of whose
modules come with a simpler method-by-method model. This project restates the logic of both
in Dafny and proves what the core relies on: that renaming, speculation, reordering and
pipelining leave the meaning of the program alone, and that the units compute what the
architecture asks for.

Sizes are parameters throughout (registers, slots, stages, ports, widths, numbers of
snapshots); words are naturals below a power of two, bit masks are sets of ids or sequences
of booleans. Registers that the source updates in place are fields of classes, and each such
method is proved against a function of the old state; what is promised of a run is proved
about those functions, as invariants of reachable states.

## Layout

| files | what they hold |
|---|---|
| `FreeLists`, `Dataflow`, `Renaming*` | free lists with snapshots, the dataflow manager, and the renaming engine as a machine over program-ordered instructions |
| `SequenceAllocator`, `ControlFlow`, `Speculation*` | sequence numbers, branch masks, registered kills, serialization, the reorder buffer, and the proof that late broadcasts act as if immediate |
| `Words`, `Divider*`, `Multiplier*` | machine words, the non-restoring divider, the elastic multiplier, and the M instructions |
| `IssueQueue*` | the compacting issue queue, its refinement of a plain queue, wake-ups over runs |
| `MemoryFlow`, `LoadStore*` | store tables, overlap checker, and program order of loads and stores |
| `MemoryArbiter` | one memory port shared by loads and stores |
| `PipelineWrapper` | killing what runs in a pipeline that cannot be killed |
| `MultiPortFreeList`, `RegisterFiles`, `Cam`, `Arbiters`, `Fields`, `Toposort` | the smaller structures, hardware form against method form |

## Results that are not what one would expect

- Full coverage of the physical registers is false. At reset the bookkeeping marks one
  register more than the architecture uses (`range(naregs)` against `naregs - 1`), so a
  rollback before that mark has been cleared loses preg `naregs - 1` for good.
  `RenamingTheorems.ResetMarkLeaks` gives a two-instruction run, for every configuration;
  `RenamingTheorems.RollbackCoversIff` says exactly when a rollback covers everything, whether
  an exception or a redirecting commit causes it, and `RenamingTheorems.Conservation` that no
  other register can ever be lost.
- The overlap checker is blind to ranges that end at the very top of the address space:
  `MemoryFlow.OverlapExactIff` says exactly for which pairs it is right, and
  `LoadStoreTheorems.HeldBackExactly` what that does to loads. The FL checker differs from the
  hardware there; the hardware is what is modelled.
- The memory arbiter matches responses to requests by one flag. `MemoryArbiter.ArbiterMatches`
  says over runs exactly when that is enough: no store is sent with anything owed, and no load
  behind a store. With one request outstanding it cannot be otherwise, and the repository's bus
  model accepts one request a port at a time; with two, every pair but two loads goes wrong
  (`MemoryArbiter.PairOutstanding`, `MemoryArbiter.DepthExact`).
- Nothing may register in the cycle of a redirect, or it survives the kill:
  `SpeculationTheorems.WrongPathWouldSurvive`. The drop controller of decode sees to it.

## Model

| member | source | states |
|---|---|---|
| `FreeLists.FreeListFL.Alloc` | lizard/util/fl/freelist.py:45-51 | takes the lowest free slot; with none free it fails and changes nothing |
| `FreeLists.FreeListFL.Release` | lizard/util/fl/freelist.py:53-55 | frees exactly the slots of the mask |
| `FreeLists.SnapshottingFreeListFL.Alloc` | lizard/util/fl/snapshotting_freelist.py:43-48 | allocates the lowest slot and records it in every snapshot |
| `FreeLists.SnapshottingFreeListFL.ResetAllocTracking` | lizard/util/fl/snapshotting_freelist.py:54-56 | a snapshot forgets every allocation recorded in it; nothing else changes |
| `FreeLists.SnapshottingFreeListFL.RevertAllocs` | lizard/util/fl/snapshotting_freelist.py:58-63 | frees every slot the snapshot has recorded |
| `FreeLists.RevertExact` | lizard/util/rtl/snapshotting_freelist.py:96-130 | reverting to an open snapshot frees exactly what younger instructions hold, although records are never taken back and ids are recycled |
| `FreeLists.PromoteKeeps` | lizard/core/fl/dataflow.py:96-104 | on commit the slot of the oldest instruction replaces the one it frees, and ownership and tracking stay exact |
| `FreeLists.TakeAndOpenKeeps` | lizard/core/fl/dataflow.py:193-200 | allocating and opening a snapshot under an unused id keeps ownership and tracking exact |
| `FreeLists.RestoredSnapsKeep` | lizard/core/fl/dataflow.py:202-208 | freeing and reverting a snapshot id returns the ids of all younger snapshots and no older one |
| `Dataflow.RenameTableFL.Update` | lizard/core/fl/renametable.py:38-43 | updates the mapping of a register, never that of x0 |
| `Dataflow.DataFlowManagerFL.Commit` | lizard/core/fl/dataflow.py:96-104 | frees the old architectural preg, installs the new one and moves the used mark, unless the tag is the zero tag |
| `Dataflow.DataFlowManagerFL.Write` | lizard/core/fl/dataflow.py:106-112 | writes value and ready bit of a tag and lists the tag as updated, never the zero tag |
| `Dataflow.DataFlowManagerFL.GetUpdated` | lizard/core/fl/dataflow.py:121-135 | hands out the tags written since the last call and those being forwarded, and empties the list |
| `Dataflow.DataFlowManagerFL.GetSrc` | lizard/core/fl/dataflow.py:137-139 | looks a source up in the rename table |
| `Dataflow.DataFlowManagerFL.GetDst` | lizard/core/fl/dataflow.py:158-167 | x0 gets the zero tag; any other register a fresh preg, mapped and not ready |
| `Dataflow.DataFlowManagerFL.GetStoreId` | lizard/core/fl/dataflow.py:150-152 | allocates a store id and records it in every snapshot |
| `Dataflow.DataFlowManagerFL.Read` | lizard/core/fl/dataflow.py:176-183 | the zero tag reads zero, a forwarded tag its forwarded value, any other the preg file |
| `Dataflow.DataFlowManagerFL.Snapshot` | lizard/core/fl/dataflow.py:193-200 | allocates an id, restarts tracking under it in all three lists and saves the rename table |
| `Dataflow.DataFlowManagerFL.Restore` | lizard/core/fl/dataflow.py:206-211 | reverts all three lists and the rename table to a snapshot |
| `Dataflow.DataFlowManagerFL.Rollback` | lizard/core/fl/dataflow.py:213-222 | frees everything the architectural state does not use and resets the rename table to it |
| `Renaming.ReadExact` | lizard/core/rtl/dataflow.py:317-450 | reading a mapped source gives the speculative value of its register, forwarded or written back |
| `RenamingInvariant.RenameKeeps` | lizard/core/rtl/backend/rename.py:92-142 | renaming an instruction keeps map, lists and values consistent with program order |
| `RenamingInvariant.ComputeValue` | lizard/core/rtl/dataflow.py:317-450 | operands read through tags are the sequential ones even for a source still being forwarded |
| `RenamingInvariant.WriteBackKeeps` | lizard/core/fl/dataflow.py:106-112 | a write-back in any order keeps the invariant |
| `RenamingInvariant.CorrectKeeps` | lizard/core/rtl/dataflow.py:491-527 | resolving a branch correctly gives its snapshot back and keeps the invariant |
| `RenamingInvariant.MispredictKeeps` | lizard/core/rtl/dataflow.py:491-527 | restoring the snapshot of any live branch keeps the invariant |
| `RenamingInvariant.RetireKeeps` | lizard/core/fl/dataflow.py:96-104 | committing the oldest instruction keeps the invariant |
| `RenamingInvariant.RollbackKeeps` | lizard/core/fl/dataflow.py:213-222 | rolling everything back keeps the invariant, lost preg included |
| `RenamingInvariant.StepKeeps` | lizard/core/rtl/dataflow.py:317-527 | every enabled event keeps the whole invariant |
| `RenamingTheorems.RunKeeps` | lizard/core/rtl/dataflow.py:231-258 | the invariant holds after every run from reset |
| `RenamingTheorems.SequentialMeaning` | lizard/core/fl/dataflow.py:96-184 | over every run, the architectural file read through the preg file is what running the committed instructions one by one gives |
| `RenamingTheorems.OperandsSequential` | lizard/core/rtl/dataflow.py:317-450 | over every run, what an instruction computes is what it would compute in sequential execution |
| `RenamingTheorems.SourceReadyIff` | lizard/core/fl/dataflow.py:169-174 | over every run, a source is ready exactly when the in-flight instruction that produces its tag, if any, has written back, and can be read exactly when that one has or is forwarding |
| `RenamingTheorems.AnyOrder` | lizard/core/rtl/dataflow.py:437-450 | over every run, an instruction can compute exactly when its producers have written back or forward; write-backs and resolutions may come in any order |
| `RenamingTheorems.RenamesIff` | lizard/core/rtl/backend/rename.py:92-142 | over every run, an instruction can be renamed exactly when a physical register, a store id and a snapshot are left for what it needs of them |
| `RenamingTheorems.OldestMovesOn` | lizard/core/rtl/dataflow.py:317-450 | nothing gets stuck: in every reachable state the oldest instruction can compute, write back, resolve or commit |
| `RenamingTheorems.ZeroUntouched` | lizard/core/fl/dataflow.py:106-112 | over every run, the entry behind the zero tag is never written |
| `RenamingTheorems.ProgramEvolves` | lizard/core/rtl/backend/commit.py:196-235 | only renaming extends the program and only redirects cut it, right after the redirecting instruction |
| `RenamingTheorems.Conservation` | lizard/core/fl/dataflow.py:37-59 | over every run, free pregs, architectural pregs and in-flight destinations are disjoint and distinct, and cover every preg but possibly naregs-1 |
| `RenamingTheorems.CoveredIff` | lizard/core/fl/dataflow.py:37-59 | in a reachable state every preg is covered exactly when naregs-1 has not been lost |
| `RenamingTheorems.RollbackCoversIff` | lizard/core/fl/dataflow.py:213-222 | a rollback, by exception or by a commit that redirects, leaves every preg covered exactly when naregs-1 is not marked used without backing a register, or the committing instruction brings it into use |
| `RenamingTheorems.ResetMarkLeaks` | lizard/core/rtl/dataflow.py:231-258 | in every configuration an exception on the first instruction loses preg naregs-1 |
| `RenamingTheorems.LeakStays` | lizard/core/fl/dataflow.py:213-222 | a lost preg never comes back |
| `RenamingTheorems.RestoreExact` | lizard/core/rtl/dataflow.py:491-527 | restoring a branch brings back the map recorded when it was renamed and frees exactly the pregs, store ids and snapshot ids of younger instructions |
| `RenamingTheorems.RecordedMap` | lizard/core/fl/dataflow.py:193-200 | the recorded map is the rename table right after renaming, into an empty window as well |
| `RenamingTheorems.RecordKept` | lizard/core/fl/dataflow.py:193-200 | an instruction that stays in flight keeps record, tags and ids through every event, and computing, writing back and resolving change its state as they should |
| `RenamingTheorems.RestoresOwnTable` | lizard/core/rtl/dataflow.py:491-527 | over every run, restoring a branch gives the rename table as it was right after that branch was renamed, whatever was renamed, resolved, committed or recycled in between |
| `RenamingTheorems.StoreMaskExact` | lizard/core/rtl/dataflow.py:317-320 | over every run, the valid-store mask names exactly the stores in flight, each under its own id |
| `SequenceAllocator.CycleExact` | lizard/util/rtl/sequence_allocator.py:80-117 | one cycle of head, tail and num is exactly cut, append and drop on the list of live numbers, full and empty told apart, rollback beating allocate; it fails exactly for a rollback without a free in a window of one number |
| `SequenceAllocator.ZeroWidthLosesTheEntry` | lizard/util/rtl/sequence_allocator.py:101-117 | the failing case: without index bits a rollback loses the live number |
| `SequenceAllocator.WrapIsMod` | lizard/util/rtl/sequence_allocator.py:85-98 | the wrap used for indices is arithmetic modulo the number of indices |
| `SequenceAllocator.SequenceAllocator.Cycle` | lizard/util/rtl/sequence_allocator.py:80-117 | one clock tick of the registers |
| `ControlFlow.ControlFlowManager.TickMasks` | lizard/core/rtl/controlflow.py:262-321 | kill and clear masks of a redirect, the branch mask register and the registered kill |
| `ControlFlow.ControlFlowManager.RegisterSuccess` | lizard/core/rtl/controlflow.py:323-335 | registration needs a number, a snapshot if speculative, a store id if a store, an empty window if serializing, and no serialized instruction |
| `ControlFlow.ControlFlowManager.Tick` | lizard/core/rtl/controlflow.py:262-355 | one clock tick: all registers, the number and mask handed to a registration, the kill that is broadcast, and the redirect with its target, a redirecting commit before a branch |
| `Speculation.KillExact` | lizard/core/rtl/controlflow.py:294-311 | the kill mask, own id with the complement of the own mask, meets exactly the masks of younger instructions |
| `SpeculationInvariant.KeepIffCut` | lizard/core/rtl/kill_unit.py:77-81 | the registered broadcast drops an instruction exactly when a commit redirects or it is younger than the mispredicted branch |
| `SpeculationInvariant.NextKillExact` | lizard/core/rtl/controlflow.py:262-272 | what is registered is exactly what this cycle's redirect calls for |
| `SpeculationInvariant.Refines` | lizard/core/rtl/controlflow.py:262-321 | after every cycle, what survives the late broadcast is the window a machine without any delay would have |
| `SpeculationKeeps.WindowKept` | lizard/core/rtl/controlflow.py:312-321 | masks stay the sets of older unresolved branches, the mask register all unresolved ones, and the snapshot allocator knows exactly those |
| `SpeculationKeeps.NumbersKept` | lizard/util/rtl/sequence_allocator.py:80-117 | the live numbers stay those of the window, through simultaneous register, commit and redirect |
| `SpeculationKeeps.SerialKept` | lizard/core/rtl/controlflow.py:287-292 | a serialized instruction stays alone and the flag says whether there is one |
| `SpeculationKeeps.PredictionsKept` | lizard/core/rtl/controlflow.py:238-242 | the predicted target of every unresolved branch stays the one stored when it registered |
| `SpeculationKeeps.RobKept` | lizard/util/rtl/reorder_buffer.py:97-120 | a buffer slot is ready exactly for a written-back instruction of the window, holding its identity and mask |
| `SpeculationKeeps.InvKeeps` | lizard/core/rtl/controlflow.py:262-355 | every cycle keeps the whole invariant |
| `SpeculationTheorems.RunKeeps` | lizard/core/rtl/controlflow.py:262-355 | the invariant holds after every run from reset |
| `SpeculationTheorems.AnythingMayCome` | lizard/core/rtl/controlflow.py:262-355 | over every run, any offer, commit, resolution of an unresolved branch and write-back may come next |
| `SpeculationTheorems.MispredictsIff` | lizard/core/rtl/controlflow.py:303-304 | over every run, a branch mispredicts exactly when its target is not the successor it registered with |
| `SpeculationTheorems.CutExactly` | lizard/core/rtl/kill_unit.py:77-81 | over every run, a branch that does not go where predicted leaves exactly the instructions up to it, any other all of them, a redirecting commit none |
| `SpeculationTheorems.EntriesAfter` | lizard/core/rtl/controlflow.py:262-321 | over every run, a surviving instruction changes in a cycle only by writing back, resolving, and losing the id of a branch predicted right |
| `SpeculationTheorems.CommitsIff` | lizard/core/rtl/backend/commit.py:155-174 | over every run, the head commits exactly when it has written back and commit takes it |
| `SpeculationTheorems.RegistersIff` | lizard/core/rtl/controlflow.py:323-335 | over every run, what decode offers registers exactly outside a redirect, with room in the window, a branch id and store id left if needed, and serialization respected |
| `SpeculationTheorems.RegistersAs` | lizard/core/rtl/controlflow.py:323-335 | it registers with its identity, successor and serialization, a branch under an id nobody holds |
| `SpeculationTheorems.ResolvedIdGone` | lizard/core/rtl/controlflow.py:294-321 | over every run, a resolved id is gone from the mask register and every surviving copy of a mask, even where ids are handed out again in the same cycle |
| `SpeculationTheorems.WrongPathWouldSurvive` | lizard/core/rtl/frontend/decode.py:77-91 | whatever registered in the cycle of a misprediction would outlive its kill |
| `SpeculationTheorems.RetiresOldest` | lizard/core/rtl/backend/commit.py:155-174 | the buffer entry handed to commit is the oldest instruction of the window |
| `SpeculationTheorems.RetiresInOrder` | lizard/util/rtl/reorder_buffer.py:97-120 | over every run, instructions retire in registration order and none that was not registered; what is in flight continues that order |
| `SpeculationTheorems.SubsequenceDistinct` | lizard/core/rtl/backend/commit.py:155-174 | with distinct registrations nothing retires twice |
| `Divider.StepRefines` | lizard/util/rtl/divide.py:79-93 | one hardware step, on wrapping n+1 bits and the shared dividend register, is one step of long division |
| `Divider.AccumulatorRange` | lizard/util/rtl/divide.py:79-93 | for a divisor D > 0 the accumulator read as signed never leaves [-D, D) |
| `Divider.LongDivision` | lizard/util/arch/semantics.py:185-193 | long division yields quotient and remainder, and for a zero divisor all ones and the dividend |
| `Divider.StepsRefine` | lizard/util/rtl/divide.py:79-93 | any number of steps from a loaded dividend represents that many bits of long division |
| `DividerUnit.NonRestoringDivider.Eval` | lizard/util/rtl/divide.py:79-93 | the combinational loop performs the configured number of steps |
| `DividerUnit.NonRestoringDivider.Tick` | lizard/util/rtl/divide.py:125-176 | one clock tick: load with signs stripped, step, correct in the last cycle, busy flag |
| `DividerUnit.Corrected` | lizard/util/rtl/divide.py:162-171 | the last-cycle corrections give the quotient and remainder of long division, negated as recorded, never negating a quotient by zero |
| `DividerUnit.SignsExact` | lizard/util/arch/semantics.py:185-221 | division of magnitudes with signs put back is the architectural division, zero divisor and overflow included |
| `DividerUnit.SaneIs` | lizard/util/arch/semantics.py:185-221 | the reference division rounds towards zero with a remainder of the dividend sign, with the zero-divisor and overflow results of section 6.2 of the RISC-V User-Level ISA v2.2 |
| `DividerUnit.DivideExact` | lizard/util/rtl/divide.py:125-176 | for every width, every cycle count dividing it, all operands and both signednesses: ready after exactly that many ticks, with section 6.2 quotient and remainder, held until the next division |
| `DividerUnit.InstructionExact` | lizard/core/rtl/backend/divide.py:57-102 | every division instruction, narrow ones through the wide unit included, yields its architectural result |
| `IssueQueueRefinement.Ripple` | lizard/util/rtl/issue_queue.py:391-408 | a slot empties exactly when some slot at or below it is a hole |
| `IssueQueueRefinement.AddReadyExact` | lizard/util/rtl/issue_queue.py:423-427 | there is room exactly when some slot is invalid or issues this cycle |
| `IssueQueueRefinement.ShiftKeepsOrder` | lizard/util/rtl/issue_queue.py:353-359 | compaction loses, doubles and reorders nothing, and an added entry comes last |
| `IssueQueueRefinement.MayIssueExact` | lizard/util/rtl/issue_queue.py:309-340 | the ready and wait chains let exactly the oldest ready entry go, and only if ordering does not make it wait |
| `IssueQueueRefinement.Refines` | lizard/util/rtl/issue_queue.py:309-445 | each cycle the valid slots in index order are the surviving entries, woken, less the issued one, plus the added one |
| `IssueQueueRefinement.RemoveReadyExact` | lizard/util/rtl/issue_queue.py:429-445 | an entry is offered exactly when the plain queue issues, and it is its oldest ready one |
| `IssueQueueRuns.NoLostWakeUp` | lizard/util/rtl/issue_queue.py:171-211 | over every run, a ready bit is set exactly when its source is unused, came ready, or was announced in the cycle of insertion or later, and a mask is the added one less every id cleared since, shifting or not; entries stay in insertion order |
| `IssueQueueRuns.InQueueExactly` | lizard/util/rtl/issue_queue.py:160-166 | over every run, an entry is in the queue exactly when it has been added and since neither been handed out nor met a kill broadcast |
| `IssueQueueRuns.OffersIff` | lizard/util/rtl/issue_queue.py:309-340 | over every run, an entry is offered exactly when the oldest one with all sources announced is not held back by an ordered one, or by being ordered behind anything |
| `IssueQueueRuns.RunsOn` | lizard/util/rtl/issue_queue.py:423-445 | any cycle may follow, with an addition if there is room |
| `IssueQueueRuns.IssuesOldestWoken` | lizard/util/rtl/issue_queue.py:183-198 | over every run, what may issue is the oldest entry all of whose sources have been announced |
| `IssueQueueUnit.CompactingIssueQueue.Select` | lizard/util/rtl/issue_queue.py:309-348 | the chains computed slot by slot |
| `IssueQueueUnit.CompactingIssueQueue.Cycle` | lizard/util/rtl/issue_queue.py:353-445 | one clock tick on the slot array, tied to the plain queue |
| `MemoryFlow.OverlapExactIff` | lizard/util/rtl/overlap_checker.py:52-76 | for ranges inside memory the checker is right exactly when neither range ends at the top in a way that hides the other |
| `MemoryFlow.TopByteIsMissed` | lizard/util/rtl/overlap_checker.py:52-76 | the byte at the top is called disjoint from itself |
| `MemoryFlow.MemoryFlowManager.StorePending` | lizard/core/rtl/memoryflow.py:174-194 | pending exactly when some live slot with a known address is not disjoint |
| `MemoryFlow.MemoryFlowManager.RegisterStore` | lizard/core/rtl/memoryflow.py:195-200 | registering clears both valid bits of the slot |
| `MemoryFlow.MemoryFlowManager.EnterStoreAddress` | lizard/core/rtl/memoryflow.py:202-210 | stores the address and marks it valid |
| `MemoryFlow.MemoryFlowManager.EnterStoreData` | lizard/core/rtl/memoryflow.py:212-217 | stores the data and marks it valid |
| `MemoryArbiter.SendExact` | lizard/core/rtl/memory_arbiter.py:106-132 | at any depth, the flag goes on telling every owed response exactly when a store is sent with nothing owed and a load behind loads only |
| `MemoryArbiter.GoodRoutes` | lizard/core/rtl/memory_arbiter.py:80-97 | while it does, every response goes to its side, and the acknowledgement flag says whether a store is owed |
| `MemoryArbiter.DrainExact` | lizard/core/rtl/memory_arbiter.py:80-97 | all that is owed drains to the right side exactly while the flag tells |
| `MemoryArbiter.ArbiterMatches` | lizard/core/rtl/memory_arbiter.py:80-134 | over every run at any depth, all responses, those still to come included, reach their side exactly when everything was sent in order |
| `MemoryArbiter.DepthExact` | lizard/core/rtl/memory_arbiter.py:80-134 | every traffic is matched exactly when at most one request may be outstanding |
| `MemoryArbiter.PairOutstanding` | lizard/core/rtl/memory_arbiter.py:80-134 | two requests sent at once are matched exactly when both are loads |
| `MemoryArbiter.MemoryArbiter.Tick` | lizard/core/rtl/memory_arbiter.py:80-134 | one clock tick of the flag, and the signals of both sides |
| `LoadStoreInvariant.PendingExact` | lizard/core/rtl/memoryflow.py:174-194 | a load at the request stage is held back exactly by an older uncommitted store that overlaps it and that the checker is not blind to |
| `LoadStoreInvariant.LoadReadsInOrder` | lizard/core/rtl/backend/mem_pipe.py:155-175 | a load let through reads what all older stores leave |
| `LoadStoreInvariant.RequestKeeps` | lizard/core/rtl/backend/mem_pipe.py:155-183 | the request stage keeps the invariant |
| `LoadStoreInvariant.IssueKeeps` | lizard/util/rtl/issue_queue.py:317-328 | issuing under the store-ordering rule keeps the invariant |
| `LoadStoreRuns.CommitKeeps` | lizard/core/rtl/backend/commit.py:278-285 | a committing store writes its table slots and keeps program order |
| `LoadStoreRuns.SquashKeeps` | lizard/core/rtl/kill_unit.py:77-81 | cutting the window keeps the invariant |
| `LoadStoreRuns.RenameKeeps` | lizard/core/rtl/backend/rename.py:100-125 | a renamed operation under a free store id keeps the invariant |
| `LoadStoreRuns.NextKeeps` | lizard/core/rtl/backend/mem_pipe.py:140-183 | a whole cycle, with data, request, issue, commit, squash or rename together, keeps the invariant |
| `LoadStoreTheorems.LoadsObeyProgramOrder` | lizard/core/rtl/backend/commit.py:182-221 | over every run, memory is the committed stores in order, and every load that has read holds the bytes all older stores in program order leave |
| `LoadStoreTheorems.ProgramEvolves` | lizard/core/rtl/kill_unit.py:77-81 | a cycle extends the program by what is renamed, cuts it right behind what a squash keeps, and commits exactly the head |
| `LoadStoreTheorems.OperationAfter` | lizard/core/rtl/backend/mem_pipe.py:155-183 | what a cycle does to each operation that stays: issue, request stage, arrival of data, bytes read |
| `LoadStoreTheorems.WriteExact` | lizard/core/rtl/backend/commit.py:278-285 | a store puts its bytes where it points and changes no other |
| `LoadStoreTheorems.OldestMovesOn` | lizard/core/rtl/backend/mem_pipe.py:155-183 | nothing gets stuck: the oldest operation may issue, or the request stage lets its operation through, or the oldest commits |
| `LoadStoreTheorems.LetThroughIff` | lizard/core/rtl/backend/mem_pipe.py:155-183 | over every run, the request stage lets a load through exactly when no older uncommitted store is seen to overlap it and no committing store takes the memory port |
| `LoadStoreTheorems.IssuesIff` | lizard/util/rtl/issue_queue.py:317-328 | over every run, the store-ordering rule lets an operation issue exactly when that keeps loads and stores in order |
| `LoadStoreTheorems.RenamesIff` | lizard/core/rtl/backend/rename.py:100-125 | over every run, an operation can be renamed exactly when it is new, inside memory and under an id no store in flight has |
| `LoadStoreTheorems.AnyCycle` | lizard/core/rtl/backend/mem_pipe.py:140-183 | over every run, issue, request, data, commit, squash and rename may come together in any cycle |
| `LoadStoreTheorems.HeldBackExactly` | lizard/core/rtl/memoryflow.py:174-194 | over every run, neither stale slots nor younger stores ever hold a load back, and an older overlapping store does unless the checker is blind to every such store |
| `LoadStoreTheorems.AddressesInOrder` | lizard/util/rtl/issue_queue.py:317-328 | over every run, no store address is entered before everything older has been through |
| `PipelineWrapper.NeverOverwritten` | lizard/util/rtl/killable_pipeline_wrapper.py:83-108 | when the inner pipeline takes something in, the first tracking manager is clear or clearing |
| `PipelineWrapper.EndsPaired` | lizard/util/rtl/killable_pipeline_wrapper.py:109-112 | what is ready at the end has its own header beside it |
| `PipelineWrapper.HeadersStep` | lizard/util/rtl/pipeline_stage.py:203-243 | the headers from any stage on: the taken one goes, the shifted one joins, all see the broadcast |
| `PipelineWrapper.MatchedKept` | lizard/util/rtl/killable_pipeline_wrapper.py:83-130 | however the inner pipeline stalls, no header falls behind its message and their order is the same |
| `PipelineWrapper.RunMatched` | lizard/util/rtl/killable_pipeline_wrapper.py:83-130 | over every run, messages leave in the order they entered, none lost or doubled, matched with their headers |
| `PipelineWrapper.RunsOn` | lizard/util/rtl/killable_pipeline_wrapper.py:83-130 | any cycle may follow, whatever the inner pipeline and both sides do |
| `PipelineWrapper.RunFates` | lizard/util/rtl/pipeline_stage.py:236-243 | over every run, each header has seen exactly the broadcasts since it entered |
| `PipelineWrapper.FateDead` | lizard/util/rtl/pipeline_stage.py:236-243 | a header is dead exactly when some broadcast hit the mask it had by then |
| `PipelineWrapper.FateMask` | lizard/util/rtl/pipeline_stage.py:236-243 | the mask of a header is the one it entered with less every id cleared since |
| `PipelineWrapper.SurvivorsOnly` | lizard/util/rtl/killable_pipeline_wrapper.py:113-130 | over every run, what is ready is offered exactly when nothing killed it since it entered, and eaten otherwise |
| `PipelineWrapper.SurvivorsOut` | lizard/util/rtl/killable_pipeline_wrapper.py:113-130 | over every run, what reaches the consumer is, in order, exactly what left without being killed between entering and leaving |
| `PipelineWrapper.EntersIff` | lizard/util/rtl/killable_pipeline_wrapper.py:83-108 | something enters exactly when it is offered, accepted, and the first stage would otherwise be empty |
| `PipelineWrapper.TrackingManagers.Tick` | lizard/util/rtl/killable_pipeline_wrapper.py:83-130 | one clock tick of the row of managers |
| `Multiplier.UnitExact` | lizard/util/rtl/multiply.py:365-420 | either combinational unit, built-in or shift-add, multiplies on the width of the product registers |
| `Multiplier.AdvanceExact` | lizard/util/rtl/multiply.py:322-339 | one stage adds exactly the next partial product |
| `Multiplier.ProductExact` | lizard/util/rtl/multiply.py:241-339 | for every stage count dividing the width and every sign mode the last stage holds the exact product on the width kept |
| `MultiplierPipeline.FromStep` | lizard/util/rtl/multiply.py:270-303 | one cycle of the handshakes: at most the last leaves, at most one joins, order is kept |
| `MultiplierPipeline.RdyIff` | lizard/util/rtl/multiply.py:270-303 | a stage takes work exactly when it or a later one is empty or the result is taken |
| `MultiplierPipeline.ResultsInOrder` | lizard/util/rtl/multiply.py:241-339 | over every pattern of stalls, results are those of the accepted calls in their order, none lost or doubled, each exact |
| `MultiplierPipeline.InstructionExact` | lizard/core/rtl/backend/multiply.py:56-72 | every multiply instruction of section 6.1 gets its architectural result |
| `MultiplierPipeline.LowHalf` | lizard/core/rtl/backend/multiply.py:135-145 | the low half does not depend on how the operands are read |
| `MultiplierPipeline.MulPipelined.Tick` | lizard/util/rtl/multiply.py:241-339 | one clock tick of the stage registers |
| `MultiplierPipeline.MulCL.Shift` | lizard/util/cl/multiply.py:35-40 | the slot-shifting loop moves results as the handshakes do |
| `MultiplierPipeline.MulCL.Cycle` | lizard/util/cl/multiply.py:19-56 | take, shift and multiply, one after the other, are one cycle of the handshakes |
| `MultiplierPipeline.RegistersMatchCL` | lizard/util/cl/multiply.py:19-56 | registers and slots that stand for the same calls agree on readiness and on the result shown |
| `MultiplierPipeline.CLAgrees` | lizard/util/cl/multiply.py:19-56 | over every run, the hardware and the slot model, given the same inputs, are ready alike and show the same result every cycle |
| `MultiPortFreeList.FreeList.Tick` | lizard/util/rtl/freelist.py:160-261 | for any ports and bypass flags, one clock tick gives state and answers of the calls in interface order |
| `MultiPortFreeList.CycleFL` | lizard/util/fl/freelist.py:32-59 | the method-by-method list, called in interface order, gives the same state and answers |
| `MultiPortFreeList.FreeMask` | lizard/util/rtl/freelist.py:165-174 | or-ing in the mask of all frees is freeing one by one |
| `MultiPortFreeList.FreedIff` | lizard/util/rtl/freelist.py:165-174 | a slot is free after the frees exactly when it was or some port frees it |
| `MultiPortFreeList.GrantedIff` | lizard/util/rtl/freelist.py:206-224 | a slot is free after the allocations exactly when it was and no port was granted it |
| `MultiPortFreeList.OfferedIff` | lizard/util/rtl/freelist.py:206-224 | each port is offered the lowest slot the ports before it have left |
| `MultiPortFreeList.CycleIff` | lizard/util/rtl/freelist.py:160-261 | exactly which slots are free after a cycle, for every bypass setting |
| `MultiPortFreeList.Decode` | lizard/util/rtl/coders.py:29-60 | the priority decoder finds the lowest set bit |
| `MultiPortFreeList.SnapTickIsInOrder` | lizard/util/rtl/snapshotting_freelist.py:79-130 | one clock tick with snapshots, state and answers, is alloc, reset, revert, free, set in turn, resetting and reverting the same snapshot included |
| `MultiPortFreeList.SnapshottingFreeList.Tick` | lizard/util/rtl/snapshotting_freelist.py:79-130 | one clock tick of free list and snapshot registers does what the calls do in interface order, answers included |
| `MultiPortFreeList.CycleSnapFL` | lizard/util/fl/snapshotting_freelist.py:43-67 | the method-by-method list, called in interface order, does the same |
| `RegisterFiles.LayersExact` | lizard/util/rtl/registerfile.py:100-131 | layered write ports are writes one by one, the last winning |
| `RegisterFiles.LastWriteWins` | lizard/util/rtl/registerfile.py:100-131 | a register holds what the last port that writes it writes, or what it held |
| `RegisterFiles.RegisterFile.Tick` | lizard/util/rtl/registerfile.py:100-152 | writes, dump before or after them, set on top |
| `RegisterFiles.RegisterFileFL.WritePorts` | lizard/util/fl/registerfile.py:30-32 | the write ports called in order |
| `RegisterFiles.TickIsInOrder` | lizard/util/rtl/snapshotting_registerfile.py:95-163 | for every combination of write, snapshot, restore and set in one cycle, the hardware does what the calls do in interface order |
| `RegisterFiles.RestoreBringsBack` | lizard/util/rtl/snapshotting_registerfile.py:95-163 | a restore brings back the registers as they were when that snapshot was taken, whatever happened between |
| `RegisterFiles.SnapshottingRegisterFileFL.Cycle` | lizard/util/fl/snapshotting_registerfile.py:46-64 | the calls of one cycle, in interface order, do what one tick does |
| `RegisterFiles.SnapshottingRegisterFile.Cycle` | lizard/util/rtl/snapshotting_registerfile.py:95-163 | one clock tick of the hardware is the calls in interface order |
| `Cam.RandomReplacementCAMFL.Read` | lizard/util/fl/cam.py:25-31 | the loop returns the highest valid entry with the key |
| `Cam.RandomReplacementCAMFL.Write` | lizard/util/fl/cam.py:33-63 | the loop writes the entry with the key, else the highest invalid one, else the one the counter names |
| `Cam.RandomReplacementCAM.Read` | lizard/util/rtl/cam.py:93-117 | the read chain answers as the loop does |
| `Cam.RandomReplacementCAM.Tick` | lizard/util/rtl/cam.py:119-190 | one clock tick, write with clear included, is write then clear |
| `Cam.WriteKeeps` | lizard/util/fl/cam.py:33-63 | a write keeps keys distinct and touches no other key's entry but the one it replaces |
| `Cam.NeverStale` | lizard/util/rtl/cam.py:93-190 | over every run, a hit returns the last value written to the key with no later remove or clear |
| `Cam.FoundIff` | lizard/util/rtl/cam.py:119-190 | over every run, what is found after a cycle: a key just written, and what was found before and neither removed, replaced nor cleared |
| `Cam.ReplacesInTurn` | lizard/util/fl/cam.py:58-63 | over every run, replacements take the entries in turn |
| `Cam.TurnsDiffer` | lizard/util/fl/cam.py:58-63 | as many successive replacements as there are entries name different ones |
| `Cam.MissesAreEvictions` | lizard/util/rtl/cam.py:153-190 | a key that was found and not removed is missed next exactly when a write to a full memory replaced its entry |
| `Arbiters.GrantsLowest` | lizard/util/rtl/arbiters.py:34-37 | requests and their negation share exactly the lowest request bit |
| `Arbiters.PriorityExact` | lizard/util/fl/arbiters.py:12-20 | the word trick grants what the loop grants |
| `Arbiters.PriorityArbiterFL.Grant` | lizard/util/fl/arbiters.py:12-20 | the shifting loop grants the first request |
| `Arbiters.ThermometerExact` | lizard/util/rtl/thermometer_mask.py:31-35 | the mask holds exactly the bits from the lowest set one up, all bits for zero |
| `Arbiters.RoundRobinArbiterFL.Grant` | lizard/util/fl/arbiters.py:31-51 | the two loops grant the first request after the last grant, else the first |
| `Arbiters.RoundRobinExact` | lizard/util/rtl/arbiters.py:53-74 | the masked hardware grants the loops' choice and remembers the same position |
| `Arbiters.RoundRobinArbiter.Grant` | lizard/util/rtl/arbiters.py:53-74 | one clock tick of the mask register |
| `Arbiters.HardwareGrantsExact` | lizard/util/rtl/arbiters.py:53-74 | over every run, the hardware grants what the loops grant, cycle by cycle |
| `Arbiters.Fair` | lizard/util/rtl/arbiters.py:53-74 | over every run of the mask register, a request held for nreqs cycles, from any cycle on, is granted within them |
| `Fields.RoundTrip` | lizard/util/arch/isa.py:89-113 | assembling fails exactly on a wrong fixed part; otherwise reading back gives the value and no other bit has changed |
| `Fields.Rewrite` | lizard/util/arch/isa.py:89-113 | putting back what was read changes nothing |
| `Fields.AssembleInPlace` | lizard/util/arch/isa.py:89-100 | the loop over the parts, writing slices in place |
| `Fields.TableValid` | lizard/util/arch/rv64g.py:107-157 | every field of the table tiles its width with disjoint places in the word |
| `Fields.DecoderExact` | lizard/core/rtl/frontend/imm_decoder.py:63-84 | for every word, type and output width of at least 21 the decoder yields the field's value, extended |
| `Fields.DecodedBits` | lizard/core/rtl/frontend/imm_decoder.py:63-84 | every bit the decoder yields is the one section 2.3 of the RISC-V User-Level ISA v2.2 draws, the sign bit or zero above the field |
| `Fields.Extension` | lizard/core/rtl/frontend/imm_decoder.py:77-84 | from the width of the field on it is the sign bit of the word for the signed types and zero for the others |
| `Fields.WordR` | lizard/util/arch/rv64g.py:107-157 | a word is its register-format fields one after the other |
| `Fields.WordI` | lizard/util/arch/rv64g.py:107-157 | the same for 12-bit immediates, where CSR numbers and immediates stand too |
| `Fields.WordUpper` | lizard/util/arch/rv64g.py:107-157 | shift amounts, fences and ordering bits are these slices of the upper part |
| `Fields.WordS` | lizard/util/arch/rv64g.py:107-157 | the same for stores |
| `Fields.WordB` | lizard/util/arch/rv64g.py:107-157 | the same for branches |
| `Fields.WordU` | lizard/util/arch/rv64g.py:107-157 | the same for upper immediates |
| `Fields.WordJ` | lizard/util/arch/rv64g.py:107-157 | the same for jumps |
| `Toposort.Sort` | lizard/util/toposort.py:31-58 | lists every node once after all it depends on, and fails exactly when the graph has a cycle |
| `Toposort.GroupJoins` | lizard/util/toposort.py:43-52 | the members of a round depend only on what was listed before |
| `Toposort.LeftoverIsCyclic` | lizard/util/toposort.py:54-55 | where everything left depends on something left there is a cycle |
| `Toposort.OrderedIsAcyclic` | lizard/util/toposort.py:16-29 | an ordered list of all nodes rules out cycles, self-loops included |

## Left out

- The CSR manager and CSR instructions: hardware and model disagree on the clear operation, so there is no common intent.
- Fetch and its redirects: a clean path needs a one-cycle instruction memory.
- Opcode decoding, ALU, comparators, branch targets and lookup tables: single-branch facts.
- Generation of hardware from Python, ports, wrappers between model levels, tests, tracing, assembler text, ELF files and simulators.
- `RegisterFile` with write-to-read bypass: its reads also see `set`, unlike the order of calls.
- `MulRetimedPipelined`: the same product computed in one stage for retiming.
- The hardware dataflow manager port by port: renaming is modelled on its method-by-method form with one source, one destination; that one tick of its parts is such calls is shown for free lists and register files.
- How the updated and forwarded tags reach the queues: the issue queue takes the announced tags as given.
- An instruction of the renaming machine has two source registers and a function of their values; an unused operand reads x0. Exceptions are an event of the oldest instruction, without their causes.
- Renaming and load/store cut the window in the cycle of the redirect; that the broadcast one cycle later amounts to this is the result of the `Speculation` files.
- The `force` input of a redirect is modelled in the control-flow manager; over runs it is false, as the branch unit ties it.
- ControlFlow.ControlFlowManager.Tick: leaves out the redirection to the reset vector in the cycle after reset; the machine starts after it.
- Fences wait for store acknowledgements; only the acknowledgement flag is modelled, with the arbiter.
- Loads and stores that raise exceptions, and sign or zero extension of load results.
- Responses of killed loads: that they are swallowed by the pipeline wrapper is shown there, not in the load/store machine.
- LoadStoreTheorems.LoadsObeyProgramOrder: is about runs in which no load is checked against an older uncommitted store that the overlap checker is blind to; those are pairs of ranges one of which ends at the top of memory.
- Branch masks and kill masks are sets of ids rather than bit words; ready and valid bits are booleans.
- Wake-up tags of the issue queue are a set, whatever the number of notify ports; two ports announcing one tag are one announcement.
- Slots of the issue queue that are invalid have no contents in the model; the hardware keeps stale bits there that nothing reads.
