# Dynamic memory visualizer: verified model of the paging engine and the tutorial navigator

This project models the two stateful parts of the memory-management visualizer.

**The paging engine** (`MemoryManager`) simulates physical memory.
- Memory is a fixed number of frames (`memory_size // page_size`). Each frame is free or allocated to a numeric owner id.
- A page table maps each owner to its list of frames.
- The engine keeps the replacement metadata of the configured algorithm. FIFO uses a deque of `(owner, frame)` keys. LRU uses an insertion-ordered dictionary from keys to access counts.
- It also keeps the page-fault, access and hit counters, the next owner id and an operation log.
- `allocate_memory` evicts pages when too few frames are free. It then hands the lowest free frames to a fresh id.
- `deallocate_memory` frees every frame of the owner found at an address.
- `access_memory` counts a hit, or a page fault that claims the frame for a fresh id.

**The tutorial navigator** (`TutorialManager`) holds a fixed catalogue of four tutorials. It tracks the active tutorial, the current step and the set of completed tutorials. It also decides whether an operation the user performed completes the current step.

The engine is modelled in two layers.
- `EngineSpec` gives each operation as a function from an `Engine` value, the whole state, to the new state and the result. Each function follows the original branch by branch, including the fallbacks: the empty-metadata scan, the owner-without-entry case and the index error when no frame is chosen.
- `Manager.MemoryManager` is a class with the original's fields, and memory is an `array<Frame>`. Each of its methods updates the object in place. Its postcondition says the object's new state, read as an `Engine`, is exactly what the matching `EngineSpec` function gives.

The properties of the engine are proved about those functions:
- the consistency invariant: frame ownership, the page table and the active metadata describe the same allocations;
- the victim choice;
- what allocation, deallocation and access do;
- the error cases;
- the counters;
- allocation followed by deallocation.

The navigator is a class whose methods state their whole effect and keep its invariant. Its matching rule is a function characterised by a declarative decision table.

Files:
- `engine_types.dfy`: values;
- `engine_lists.dfy`: list and dictionary helpers;
- `engine_spec.dfy`: the operations;
- `engine_invariant.dfy`: the invariant and eviction;
- `engine_allocate.dfy`, `engine_deallocate.dfy`, `engine_access.dfy`: per-operation effects;
- `engine_counters.dfy`: counters, balance and invariant preservation;
- `memory_manager.dfy`: the class;
- `tutorial_manager.dfy`: the navigator.

## Model

| member | source | states |
|---|---|---|
| EngineTypes.TotalFrames | memory_manager.py:24 | under the configuration checks of the web layer (app.py:49-66) there is at least one frame and the frames cover memory exactly |
| EngineSpec.Initial | memory_manager.py:8-43 | defines the state `__init__` builds: every frame free, empty table and metadata, zero counters, empty log, ids from 1; its properties are EngineInvariant.InitialConsistent and the constructor's postcondition |
| EngineSpec.FirstAllocatedVictim | memory_manager.py:275-301 | defines the fallback scan for empty metadata: the lowest allocated frame and its owner, or none when nothing is allocated (then the loop breaks); EngineInvariant.MetadataEmptyIffNothingAllocated shows it never fires on a consistent engine |
| EngineSpec.PopVictim | memory_manager.py:275-307 | defines the victim choice branch by branch: FIFO `popleft`, LRU first least-time entry deleted, the fallback scan on empty metadata; its properties are EngineInvariant.VictimChoice and EngineLists.RemoveAtDistinct |
| EngineSpec.DropFrame | memory_manager.py:332-336 | defines the page-table update of one eviction: the frame is filtered out of its owner's list and an emptied list leaves the table; its property is EngineInvariant.EvictKeyExact |
| EngineSpec.EvictFrame | memory_manager.py:325-338 | defines the rest of a round: an index outside memory is skipped, otherwise the frame is freed, the table updated and one page fault counted; its properties are EngineInvariant.EvictOne and EngineCounters.EvictVictimCounters |
| EngineSpec.EvictVictim | memory_manager.py:269-338 | defines one round of the replacement loop, no change when there is no victim; its properties are EngineInvariant.EvictOne and VictimChoice |
| EngineSpec.ReplacePages | memory_manager.py:256-338 | defines `_replace_pages(n)`: n rounds, stopping early at the `break` when no victim is found; its properties are EngineInvariant.ReplacePagesEffect and EngineCounters.ReplacePagesCounters |
| EngineSpec.MakeRoom | memory_manager.py:72-79 | defines the replacement step of allocation: replace only the shortfall of free frames; its properties are EngineInvariant.MakeRoomEffect and EngineCounters.MakeRoomCounters |
| EngineSpec.RecordPage | memory_manager.py:95-98 | defines the metadata insert: append to the FIFO deque, or set the LRU time to the access count; EngineLists.SetStamp states the dictionary semantics |
| EngineSpec.Place | memory_manager.py:87-98 | defines the placement loop round by round, each round storing the whole list as the owner's entry; its properties are EngineAllocate.PlaceEffect and EngineCounters.PlaceCounters |
| EngineSpec.AssignFrames | memory_manager.py:82-110 | defines the second half of allocation: fresh id, the first `needed` free frames placed, the log entry, and the index error when no frame is chosen; its properties are EngineAllocate.AssignFramesEffect and EngineCounters.AssignFramesCounters |
| EngineSpec.Allocate | memory_manager.py:55-110 | defines `allocate_memory` branch by branch: capacity error, replacement, assignment; its properties are EngineAllocate.AllocateRejects, AllocateSuccess, EngineCounters.AllocateKeepsConsistent and EngineDeallocate.AllocateThenDeallocate |
| EngineSpec.DropMetadata | memory_manager.py:166-172 | defines the metadata filter of deallocation: the FIFO deque rebuilt without the owner, or the owner's LRU keys deleted; EngineLists.DropOwner, DropOwnerStamps and DropOwnerStampsEntries state what survives |
| EngineSpec.Release | memory_manager.py:161-172 | defines the release loop frame by frame, skipping indices outside memory; its properties are EngineDeallocate.ReleaseEffect and EngineCounters.ReleaseCounters |
| EngineSpec.Deallocate | memory_manager.py:112-186 | defines `deallocate_memory` branch by branch: range error, nothing-allocated error, fallback to the lowest allocated frame, the owner-without-entry case, release, table removal and log; its properties are EngineDeallocate.DeallocateErrors, DeallocateSuccess and EngineCounters.DeallocateKeepsConsistent |
| EngineSpec.HandlePageFault | memory_manager.py:349-382 | defines `_handle_page_fault`: an allocated frame is left alone, a free one goes to a fresh id with its table entry and metadata key; its properties are EngineAccess.AccessMiss |
| EngineSpec.Access | memory_manager.py:190-254 | defines `access_memory`: clamp, count the access, then the fault or the hit path; its properties are EngineAccess.AccessCounts, AccessHit, AccessMiss and EngineCounters.AccessKeepsConsistent |
| EngineSpec.CountFault | memory_manager.py:220-237 | defines the fault path: one page fault, the page-fault handler, the log entry; EngineAccess.AccessMiss states its effect |
| EngineSpec.CountHit | memory_manager.py:238-254 | defines the hit path: one page hit, the LRU time refreshed under LRU only, the log entry; EngineAccess.AccessHit states its effect |
| EngineSpec.PagesNeeded | memory_manager.py:66 | the page count is the least n with n * page_size >= size |
| EngineSpec.AccessFrame | memory_manager.py:210-215 | the clamped frame index always lies inside memory |
| EngineAccess.AccessFrameClamps | memory_manager.py:210-215 | an in-range address keeps its own frame; one below memory goes to frame 0 and one above it to the last frame |
| EngineLists.FramesWith | memory_manager.py:72 | the free/allocated scan lists only indices inside memory and lists every frame with the requested status |
| EngineLists.FramesWithStatus | memory_manager.py:72 | every index the scan lists has the requested status |
| EngineLists.FramesWithIncreasing | memory_manager.py:72 | the scan lists indices in strictly ascending order |
| EngineLists.FreePlusAllocated | memory_manager.py:72-79 | free and allocated frames together count every frame once |
| EngineLists.FirstMinIndex | memory_manager.py:305 | `min(..., key=time)` picks an entry of least time, and the earliest such entry in insertion order |
| EngineLists.SetStamp | memory_manager.py:98 | assigning an LRU time keeps an existing key in place with the new time, or appends a new key last |
| EngineLists.Without | memory_manager.py:334 | the filtered page-table list holds exactly the old frames other than the evicted one |
| EngineLists.DropOwner | memory_manager.py:167 | the rebuilt FIFO deque holds exactly the keys of other owners, still without repeats |
| EngineLists.DropOwnerAppend | memory_manager.py:167 | the rebuilt deque keeps the surviving keys in their old order: filtering a concatenation is the concatenation of the filtered parts |
| EngineLists.DropOwnerStamps | memory_manager.py:169-172 | the LRU dictionary loses exactly the owner's keys and keeps the others in order |
| EngineLists.DropOwnerStampsEntries | memory_manager.py:169-172 | deleting an owner's keys leaves exactly the entries of other owners, each with its own LRU time |
| EngineLists.DropOwnerTwice | memory_manager.py:161-172 | filtering an owner out again (the release loop does it once per frame) changes nothing |
| EngineLists.RemoveAtDistinct | memory_manager.py:275-307 | popping one position from repeat-free metadata removes exactly that key and keeps the rest repeat-free |
| EngineLists.DistinctAppendOwner | memory_manager.py:87-98 | appending an owner's keys for distinct frames it did not hold keeps the metadata repeat-free |
| EngineInvariant.Consistent | memory_manager.py:18-43 | defines the consistency invariant the methods keep: a valid configuration with one frame per page of memory, hits never above accesses, and the conjuncts OwnersFresh (every owner id lies in 1 .. next_id - 1), TableExact (frame i belongs to p exactly when i is in p's non-empty page-table list), MetaExact (the active metadata holds each allocated (owner, frame) key exactly once and no other) and InactiveEmpty (the other algorithm's metadata stays empty); its properties are InitialConsistent and the EngineCounters.*KeepsConsistent lemmas |
| EngineInvariant.InitialConsistent | memory_manager.py:24-43 | a new engine satisfies the invariant and has no allocated frame |
| EngineInvariant.MetadataEmptyIffNothingAllocated | memory_manager.py:275-301 | under the invariant the active metadata is empty exactly when no frame is allocated, so the fallback scan never fires on a consistent engine |
| EngineInvariant.VictimChoice | memory_manager.py:275-307 | with a frame allocated, a victim exists: the FIFO queue head, or the earliest LRU entry of least time; its frame was allocated to it, only that frame becomes free, and the metadata loses exactly that entry (the queue its head, the LRU dictionary that position) |
| EngineInvariant.EvictKeyExact | memory_manager.py:330-336 | freeing the victim's frame and dropping it from its owner's list (the list leaving the table when empty) keeps table and metadata exact |
| EngineInvariant.EvictOne | memory_manager.py:269-338 | one round frees exactly one allocated frame, counts one page fault, touches nothing else and keeps the invariant |
| EngineInvariant.ReplacePagesEffect | memory_manager.py:256-338 | `_replace_pages(n)` with n at most the allocated count evicts exactly n frames, counts n faults and keeps the invariant |
| EngineInvariant.MakeRoomEffect | memory_manager.py:72-79 | replacement before an allocation evicts exactly the shortfall, after which max(free, needed) frames are free |
| EngineAllocate.AllocateRejects | memory_manager.py:66-69 | the capacity error is raised exactly when the page count exceeds the frame count, and nothing changes then |
| EngineAllocate.NextIdUnused | memory_manager.py:82-83 | under the invariant the next id owns no frame, no page-table entry and no metadata key |
| EngineAllocate.ChosenFrames | memory_manager.py:85 | the first `needed` free frames are inside memory, free and in ascending order, and every free frame left out lies above all of them: they are the lowest free frames |
| EngineAllocate.PlaceEffect | memory_manager.py:87-98 | the placement loop gives exactly the chosen frames to the owner, stores the whole list as its page-table entry and appends its keys in frame order |
| EngineAllocate.AddOwnerConsistent | memory_manager.py:87-98 | handing distinct free frames to the next id, with its table entry and keys, keeps the invariant |
| EngineAllocate.AssignFramesEffect | memory_manager.py:82-110 | with enough free frames, the lowest `needed` go to the old next id, the id advances by one, the owner's keys are appended to the FIFO deque or stamped with the current access count in the LRU dictionary after the existing entries, the allocation is logged, the invariant holds and the address returned is first frame * page_size |
| EngineAllocate.AllocateSuccess | memory_manager.py:55-110 | an allocation that fits evicts exactly the shortfall (one fault each) and then always gets its frames, as AssignFramesEffect describes |
| EngineDeallocate.TargetFrame | memory_manager.py:134-146 | the frame deallocation acts on is allocated: the addressed frame when it is allocated, otherwise the lowest allocated frame |
| EngineDeallocate.ReleaseEffect | memory_manager.py:161-172 | the release loop frees exactly the listed frames inside memory and drops the owner's keys once any frame was freed |
| EngineDeallocate.RemoveOwnerConsistent | memory_manager.py:161-176 | freeing all of one owner's frames, removing its entry and filtering its keys keeps the invariant |
| EngineDeallocate.DeallocateErrors | memory_manager.py:129-142 | the invalid-address error is raised exactly when the frame number is outside memory; the nothing-allocated error exactly when the frame is free and no frame is allocated; neither changes anything |
| EngineDeallocate.DeallocateSuccess | memory_manager.py:134-186 | otherwise the resolved owner loses all its frames, its entry and its keys, other owners keep their keys in order and their LRU times, the log records the resolved frame's address and the owner's frames, and the invariant holds |
| EngineDeallocate.UndoAssign | memory_manager.py:85-176 | taking back from an owner exactly the free frames it was given restores frames, page table and metadata keys |
| EngineDeallocate.AllocateThenDeallocate | memory_manager.py:55-186 | deallocating at the address an allocation returned undoes it: frames, table, keys and the fault, access and hit counters return to the state after replacement; only the id counter and the log (one allocate entry and one deallocate entry for the same frames) have moved |
| EngineDeallocate.UndoAllocation | memory_manager.py:85-186 | deallocating at the first frame of an assignment succeeds and takes back exactly the frames, table entry and keys it handed out; the counters are as before and the log gains exactly the allocate entry and the matching deallocate entry |
| EngineAccess.AccessCounts | memory_manager.py:217-254 | every access counts once, as a hit exactly when the frame was allocated and otherwise as a fault, and is logged |
| EngineAccess.AccessHit | memory_manager.py:238-254 | a hit changes no frame, entry or key order; under LRU the page's entry keeps its place and takes the new access count |
| EngineAccess.AccessMiss | memory_manager.py:220-237 | a fault gives the frame to the old next id with a one-frame entry and appends its key, with the new access count as LRU time; the invariant holds |
| EngineCounters.EvictVictimCounters | memory_manager.py:330-338 | a round counts at most one fault and touches no other counter |
| EngineCounters.ReplacePagesCounters | memory_manager.py:256-338 | replacement counts at most n faults and touches no other counter or the log, on any state |
| EngineCounters.PlaceCounters | memory_manager.py:87-98 | the placement loop touches no counter |
| EngineCounters.ReleaseCounters | memory_manager.py:161-172 | the release loop touches no counter |
| EngineCounters.AssignFramesCounters | memory_manager.py:82-105 | the assignment only advances the id by one and appends one log entry |
| EngineCounters.MakeRoomCounters | memory_manager.py:72-79 | making room only adds faults |
| EngineCounters.AllocateGrows | memory_manager.py:55-110 | allocation never turns a counter, the id or the log back, on any state |
| EngineCounters.DeallocateGrows | memory_manager.py:112-186 | deallocation touches no counter and never turns the id or the log back |
| EngineCounters.AccessGrows | memory_manager.py:190-254 | access never turns a counter, the id or the log back |
| EngineCounters.AllocateKeepsConsistent | memory_manager.py:55-110 | allocation keeps the invariant |
| EngineCounters.DeallocateKeepsConsistent | memory_manager.py:112-186 | deallocation keeps the invariant |
| EngineCounters.AccessKeepsConsistent | memory_manager.py:190-254 | access keeps the invariant |
| EngineCounters.AccessBalance | memory_manager.py:217-240 | hits + faults == accesses holds after an access exactly when it held before |
| EngineCounters.DeallocateBalance | memory_manager.py:112-186 | deallocation does not affect hits + faults == accesses |
| EngineCounters.AllocateBalance | memory_manager.py:72-79 | from a balanced consistent engine, an allocation stays balanced exactly when it is rejected or needs no eviction |
| Manager.LastTen | memory_manager.py:407 | the snapshot log is the last min(10, n) entries of the log |
| Manager.Ratio | memory_manager.py:417-421 | a ratio is 0 with a zero total, count/total otherwise, and within [0, 1] when count <= total |
| Manager.MemoryManager.constructor | memory_manager.py:8-43 | a new manager holds the initial engine, with every frame free and ids from 1, and is consistent |
| Manager.MemoryManager.ScanFrames | memory_manager.py:72-79 | the scan loop returns exactly the frames with the requested status, ascending |
| Manager.MemoryManager.LeastRecentIndex | memory_manager.py:305 | the loop finds the first entry of least time |
| Manager.MemoryManager.PopVictim | memory_manager.py:275-307 | the victim choice and metadata pop agree with EngineSpec.PopVictim; with no victim nothing changes |
| Manager.MemoryManager.EvictFrame | memory_manager.py:325-338 | freeing the victim's frame, filtering its owner's list and counting the fault agree with EngineSpec.EvictFrame |
| Manager.MemoryManager.EvictRound | memory_manager.py:269-338 | one round of the loop agrees with EngineSpec.EvictVictim and reports whether a victim was found |
| Manager.MemoryManager.ReplaceRound | memory_manager.py:269-338 | after an evicting round the remaining rounds give the same result; without a victim the replacement ends where it is |
| Manager.MemoryManager.ReplacePages | memory_manager.py:256-338 | a non-positive count changes nothing; otherwise the new state is EngineSpec.ReplacePages of the old |
| Manager.MemoryManager.HandlePageFault | memory_manager.py:349-382 | the new state is EngineSpec.HandlePageFault of the old: an allocated frame is left alone, a free one goes to a fresh id |
| Manager.MemoryManager.RecordPage | memory_manager.py:95-98 | a new key is appended to the FIFO deque or stamped in the LRU dictionary |
| Manager.MemoryManager.PlaceFrames | memory_manager.py:87-98 | the placement loop agrees with EngineSpec.Place |
| Manager.MemoryManager.MakeRoom | memory_manager.py:72-79 | scanning and replacing agree with EngineSpec.MakeRoom and return the free frames afterwards |
| Manager.MemoryManager.AssignFrames | memory_manager.py:82-110 | the id, placement, log entry and returned address agree with EngineSpec.AssignFrames |
| Manager.MemoryManager.AllocateMemory | memory_manager.py:55-110 | new state and result are EngineSpec.Allocate of the old state, and a consistent manager stays consistent |
| Manager.MemoryManager.ReleaseFrames | memory_manager.py:161-172 | the release loop agrees with EngineSpec.Release |
| Manager.MemoryManager.DeallocateMemory | memory_manager.py:112-186 | new state and result are EngineSpec.Deallocate of the old state, and a consistent manager stays consistent |
| Manager.MemoryManager.AccessMemory | memory_manager.py:190-254 | new state and hit flag are EngineSpec.Access of the old state, and a consistent manager stays consistent |
| Manager.MemoryManager.CountFault | memory_manager.py:220-237 | the fault path agrees with EngineSpec.CountFault |
| Manager.MemoryManager.CountHit | memory_manager.py:238-254 | the hit path agrees with EngineSpec.CountHit |
| Manager.MemoryManager.GetCurrentState | memory_manager.py:389-408 | the snapshot echoes the configuration and frame count, holds memory, page table and counters as they are, and the last min(10, n) log entries |
| Manager.MemoryManager.GetResults | memory_manager.py:410-432 | the allocated count is the number of allocated frames (at most the total), ratios are as Ratio defines them, and hit ratio and utilization lie in [0, 1] |
| Tutorials.Catalogue | tutorial_manager.py:19-242 | defines the tutorials table in dict order, keeping each step's expected operation (type, size, address) and dropping prose; its properties are CatalogueWellFormed, CatalogueIds, ChallengeStepNeverCompleted and NamedStepCompletedByItsOperation |
| Tutorials.GetOr | tutorial_manager.py:373-378 | defines `operation_data.get(key, default)` for the size (default 0) and the address (default -1); StepCompleted's decision table states its use |
| Tutorials.CatalogueWellFormed | tutorial_manager.py:19-242 | the catalogue has four tutorials of 5, 7, 7 and 7 steps with distinct ids |
| Tutorials.CatalogueIds | tutorial_manager.py:19-242 | the ids in table order are intro, fragmentation, page_replacement, optimization |
| Tutorials.Ids | tutorial_manager.py:395-397 | the id list has one id per tutorial, in table order |
| Tutorials.Find | tutorial_manager.py:244-264 | the lookup fails exactly for an unknown id and otherwise returns a tutorial of the table with that id |
| Tutorials.FindAt | tutorial_manager.py:244-264 | with distinct ids, looking up a tutorial's id returns that tutorial |
| Tutorials.StepCompleted | tutorial_manager.py:356-384 | the decision table: no expectation accepts all; reset accepts exactly reset; otherwise the types must agree and either the allocation size matches (missing = 0), the access address matches (missing = -1), or the step expects a deallocation |
| Tutorials.ChallengeStepNeverCompleted | tutorial_manager.py:228-233 | no operation completes the optimization step that expects an allocation without a size |
| Tutorials.NamedStepCompletedByItsOperation | tutorial_manager.py:19-242 | every catalogue step that names a size or address is completed by an operation of its type carrying that size or address |
| Tutorials.TutorialManager.StepCount | tutorial_manager.py:266-291 | the active step lies below the active tutorial's step count |
| Tutorials.TutorialManager.constructor | tutorial_manager.py:12-16 | no tutorial active, step 0, nothing completed, the catalogue loaded, invariant established |
| Tutorials.TutorialManager.GetCurrentStep | tutorial_manager.py:315-341 | an error exactly when no tutorial is active; otherwise the step, its index and count, first exactly at step 0 and last exactly at count - 1 |
| Tutorials.TutorialManager.StartTutorial | tutorial_manager.py:244-264 | an unknown id is an error with tutorial and step unchanged; a known id becomes active at step 0; completions are kept; invariant kept |
| Tutorials.TutorialManager.NextStep | tutorial_manager.py:266-291 | error with none active; on the last step the tutorial joins the completed set and the step stays; otherwise the step advances by one; invariant kept |
| Tutorials.TutorialManager.PreviousStep | tutorial_manager.py:293-313 | error with none active, error at step 0 with no change, otherwise the step goes back by one; completions untouched; invariant kept |
| Tutorials.TutorialManager.VerifyStepCompleted | tutorial_manager.py:343-384 | false with no tutorial active, otherwise the matching rule applied to the active step |
| Tutorials.TutorialManager.GetTutorialList | tutorial_manager.py:386-403 | one entry per tutorial, in table order, marked completed exactly when its id is in the completed set |
| Tutorials.TutorialManager.EndTutorial | tutorial_manager.py:405-427 | error with none active; otherwise the tutorial is dropped, the step reset to 0, and completions left unchanged; invariant kept |

## Left out

- Logging: every logging call is a side effect only and is not modelled.
- Manager.MemoryManager.constructor takes all four parameters. The Python `__init__` defaults them ('paging', 1024, 64, 'FIFO'), but app.py always passes all four, so no behaviour is lost.
- The web layer (app.py) is not part of this model. Its parameter checks become preconditions: `ValidConfig`, and `size > 0` on `AllocateMemory` (app.py replaces a non-positive size by 64).
- Coercion of addresses and sizes with `int(...)` and the `None` checks are not modelled. Addresses and sizes are taken as integers.
- The `try/except` wrappers in `_replace_pages` and `access_memory` are not modelled. The model's operations are total, so those handlers have nothing to catch.
- The replacement branch for an algorithm other than FIFO or LRU is not modelled, because the algorithm is validated to be one of the two.
- The `technique` value is stored and reported but drives no behaviour. It is a label in the model.
- The ratios of `get_results` are exact `real` values, not floating point.
- Manager.MemoryManager.GetCurrentState returns a copy of memory and of the page table. The original returns its own list and dictionary by reference, so later changes show through.
- The page-table list stored by `allocate_memory` is the same list object as the log entry's `frames`. The model keeps independent values. The original never mutates that list in place, so the behaviour agrees.
- The page table is a map, so the insertion order of its keys, which only shows in the snapshot, is not kept.
- Manager.MemoryManager methods that change state require only the structural facts (valid configuration, one array slot per frame), not the consistency invariant; `GetResults` alone requires it, for its ratio bounds. The three public operations also promise that a consistent manager stays consistent, through EngineCounters.AllocateKeepsConsistent, DeallocateKeepsConsistent and AccessKeepsConsistent; the internal helper methods state only their effect.
- Tutorial prose is not modelled: titles, descriptions, contents, tasks and suggested configurations. `get_tutorial_list` entries keep only the id and the completed flag. `get_current_step` omits the tutorial title.
- The text of error and completion messages is not modelled. Errors are reported as `TutorialError` values.
