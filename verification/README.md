# Counter access in the bundled PAPI and Intel PCM code, modelled in Dafny

The repository gives R access to hardware counters through two bundled libraries, PAPI and Intel's
Performance Counter Monitor (PCM). This project models the parts of them that hold real algorithms and
protocols, and proves what they guarantee.

`dafny verify dfyconfig.toml` checks everything.

## What is modelled

- **Counter allocation** (`BipartiteModel`, `Bipartite`, `BitmaskMaps`, `Finite`). Events come with sets of
  counters they can live on; the allocator narrows these sets by unit propagation over a work queue and by
  recursive trials on a copy. `papi_bipartite.h` is included by a platform that supplies the record of an
  event and the helpers on it: `Bipartite.Alloc` takes them as a parameter and is proved for all that keep the
  contracts in the comments on their prototypes. `BitmaskMaps` proves that the x86 helpers, on a bit mask and
  its rank, do; of the update, which copies the mask and not the rank, the allocator needs no more.
- **The CPU list** (`CpuModel`, `CpuRing`, `CpuLifetime`). `CpuRing` is the circular list on the heap,
  `CpuLifetime` the protocol of event sets that attach and release under a lock and free memory after giving
  it up. Both use the same two relations of `CpuModel` for the locked sections, so the state machine's steps
  are what the list's methods do. The error return for an entry that is not on the list cannot be reached:
  the loop before it does not end for such an entry.
- **Sharing the PMU** (`PmuRegisters`, `PmuCounting`, `PmuProtocol`, `Pmu`). Any number of processes program and clean up
  the registers of all cores under a system-wide lock and count themselves in a semaphore. Control registers
  are modelled by their fields, and the hardware may advance counters at any step. `Pmu` has the loops over
  the registers, each proved to do what the protocol's steps say; `PmuCounting` says which counters of a core
  then run, read off its control registers bit by bit.
- **Topology and aggregation** (`Topology`, `Counters`, `Aggregation`, `CounterStates`). Parsing and
  renumbering sockets; then the three ways of reading counter states, flat, per socket, and from cores to
  sockets to the system, over one snapshot of the hardware, with 64-bit wrap-around.
- **Register fields and counter width** (`ExtractBits`, `WidthExtender`). Cutting fields out of registers, and
  extending a 32-bit counter to 64 bits under two reader threads.
- **Overflow and profiling** (`OverflowModel`, `Overflow`, `ProfileModel`, `ProfileRuns`, `Profile`,
  `Generator`). The scan of deadlines, the draining of the overflow vector into profile dispatches, the choice
  of a region, the fixed-point bucket index, the weighted increment, runs of the dispatcher, and the random
  generator.
- **POWER groups** (`PowerModel`, `PowerGroups`). The native event table built from the counters' event lists,
  the group masks built from the table, and the choice of one group and a position for every event.
- **The shared-library map** (`ShlibModel`, `ShlibMap`). Counting and filling over the same parsed lines.

`Words` holds the bitwise operators on natural numbers, `Options` a value that may be missing.

The modules named `...Model`, and `CpuLifetime`, `PmuRegisters`, `PmuCounting`, `PmuProtocol`, `Counters`,
`Aggregation`, `ProfileRuns` and `Generator`, hold the specification functions and the theorems about them; the others hold
the code's loops and in-place updates as methods, proved against those functions. A long C function is split
into one method for each of its loops.

## Where the code and its documentation differ

- An event set may attach to a cpu again while it is attached: `papi.c` (lines 3570 to 3597) does not refuse it,
  and its handle is overwritten. The use count of the first node then never reaches zero and the node is never
  freed (`CpuLifetime.SecondAttachLeaks`); without such an attach nothing leaks (`CpuLifetime.NothingLeaksIff`).
  No node is freed early in either case (`CpuLifetime.FreeingIsSafe`).
- The comment on the weighted increment (`extras.c`, line 82) gives the range 1 to 255.
  `ProfileModel.CommentedRangeIff` says for which thresholds that is so: those below 2, and 255, 510 and 511.
  `ProfileModel.ByteIff` gives the thresholds for which the increment at least fits a byte; only for those does a
  larger excess never weigh less (`ProfileModel.NeverDecreasesIff`).
- The overflow handler toggles bits. Two overflowing events on one counter position cancel each other, and an
  event can be taken for another whose later term has its position. `OverflowModel.ExactlyOnceIffSelfOwned`
  gives the exact condition for right dispatches, `OverflowModel.SharedPositionLosesBoth` and
  `OverflowModel.LaterTermTakesTheCall` the cases where they go wrong.
- A region's first address is not below itself, so it is counted for another region
  (`ProfileModel.FirstAddressIff`).
- A reference core of a socket is a core of that socket only if each recorded physical id is some core's;
  `Topology.SocketsNamedIffCovered` gives the exact condition, and `Topology.WellFormedIsCovered` the form of
  input that guarantees it. `Topology.SocketWithoutCore` is an input without it.
- The documentation of PAPI_PROFIL_RANDOM speaks of dropping a random 25% of the samples. Over every 65536 of
  them in a row it is exactly 25%.

## Model

| member | source | states |
|---|---|---|
| `Bipartite.Alloc` | src/papi-5.4.3/src/papi_bipartite.h:60-187 | For any platform whose helpers keep the contracts of the prototypes: returns true exactly when some one-to-one assignment of events to their allowed counters exists; then every event is left with one counter of its original set, all different. It always ends: each recursion works on fewer events that are not down to one counter. |
| `Bipartite.TryEachCounter` | src/papi-5.4.3/src/papi_bipartite.h:145-176 | Trying the counters of the first open event in turn, each time from the same backup, succeeds exactly when the open events can be assigned at all, and leaves them settled by such an assignment. |
| `Bipartite.Propagate` | src/papi-5.4.3/src/papi_bipartite.h:69-111 | Propagation fails only on events that cannot be assigned. Otherwise it loses and admits no assignment, marks exactly the events down to one counter, leaves each marked event's counter in no other map, and its queue never outgrows the number of events. |
| `Bipartite.PreemptOthers` | src/papi-5.4.3/src/papi_bipartite.h:84-106 | One pass for the event at the head of the queue keeps the set of assignments, touches no event that has one counter only, reports a conflict only when nothing can be assigned, and queues each newly settled event once. |
| `BipartiteModel.PreemptKeepsAssignments` | src/papi-5.4.3/src/papi_bipartite.h:95-99 | Taking a settled event's counter away from another event keeps exactly the same assignments. |
| `BipartiteModel.ConflictRefutes` | src/papi-5.4.3/src/papi_bipartite.h:90-93 | Two events whose only counter is the same leave no assignment. |
| `BipartiteModel.RestSize` | src/papi-5.4.3/src/papi_bipartite.h:133-140 | The copied list holds as many events as have not exactly one counter: the termination measure. |
| `BipartiteModel.MergedAssigns` | src/papi-5.4.3/src/papi_bipartite.h:177-183 | An assignment of the open events, completed by the marked events' own counters, is an assignment of all events. |
| `BipartiteModel.RestRefutes` | src/papi-5.4.3/src/papi_bipartite.h:172-176 | If the open events cannot be assigned, the whole list could not. |
| `Bipartite.ForceHead` | src/papi-5.4.3/src/papi_bipartite.h:149-160 | A trial leaves the first open event with the tried counter and takes that counter, and nothing else, from all the others. |
| `BipartiteModel.TrialAssignments` | src/papi-5.4.3/src/papi_bipartite.h:148-160 | A trial keeps exactly those assignments that give the first open event the tried counter. |
| `BipartiteModel.TrialShrinks` | src/papi-5.4.3/src/papi_bipartite.h:148-164 | After a trial fewer events than were copied are still open. |
| `Bipartite.CopyUnmapped` | src/papi-5.4.3/src/papi_bipartite.h:133-143 | The copied list is exactly the unmarked events, in order. |
| `Bipartite.UpdateUnmapped` | src/papi-5.4.3/src/papi_bipartite.h:177-183 | The counters found go back to exactly the unmarked events, each to its own; marked events keep theirs. |
| `BitmaskMaps.RegAlloc.MapAvail` | src/papi-5.4.3/src/components/perfctr/perfctr-x86.c:262-269 | On selector bits with their count as rank, the test answers membership of the counter, as the allocator assumes. |
| `BitmaskMaps.RegAlloc.MapSet` | src/papi-5.4.3/src/components/perfctr/perfctr-x86.c:271-289 | Afterwards the event has exactly the given counter, and its rank is right. |
| `BitmaskMaps.RegAlloc.MapExclusive` | src/papi-5.4.3/src/components/perfctr/perfctr-x86.c:291-298 | Rank one means exactly one counter. |
| `BitmaskMaps.RegAlloc.MapShared` | src/papi-5.4.3/src/components/perfctr/perfctr-x86.c:300-335 | The selectors' conjunction is non-zero exactly when the two events have a counter in common. |
| `BitmaskMaps.RegAlloc.MapPreempt` | src/papi-5.4.3/src/components/perfctr/perfctr-x86.c:337-403 | Afterwards the event has exactly the counters it had less those of the other event, and its recomputed rank is their number. |
| `BitmaskMaps.RegAlloc.MapUpdate` | src/papi-5.4.3/src/components/perfctr/perfctr-x86.c:405-414 | The counters are copied but the rank is not: the rank is right afterwards exactly when it already was the number of the copied counters. |
| `BitmaskMaps.UpdatedIsUpToDateIff` | src/papi-5.4.3/src/components/perfctr/perfctr-x86.c:405-414 | Selector and rank agree after an update exactly when the rank kept is the number of the counters copied. |
| `BitmaskMaps.UpdateLeavesRank` | src/papi-5.4.3/src/components/perfctr/perfctr-x86.c:405-414 | An event on two counters that is settled on one of them keeps the rank two. |
| `BitmaskMaps.X86Meets` | src/papi-5.4.3/src/components/perfctr/perfctr-x86.c:262-414 | The helpers on selector and rank keep the contracts of the prototypes that the allocator relies on. |
| `BitmaskMaps.Allocate` | src/papi-5.4.3/src/components/perfctr/perfctr-x86.c:262-414 | With these helpers the allocator returns true exactly when the events can be assigned, and then every selector stands for the event's one counter, although updated ranks are out of date. |
| `BitmaskMaps.SharedBits` | src/papi-5.4.3/src/components/perfctr/perfctr-x86.c:334 | Two words below 2^n have a common bit exactly when their sets of bits meet. |
| `BitmaskMaps.RemovedBits` | src/papi-5.4.3/src/components/perfctr/perfctr-x86.c:396-398 | Toggling the common bits removes exactly them. |
| `CpuRing.CpuList.LookupCpu` | src/papi-5.4.3/src/cpus.c:28-56 | A found node becomes the head and the ring is only rotated; on a miss nothing changes and no node is for that cpu. |
| `CpuRing.CpuList.InsertCpu` | src/papi-5.4.3/src/cpus.c:242-269 | In all three cases the ring gains exactly the new node, as head, with the former head last, and stays one cycle of distinct cpus. |
| `CpuRing.CpuList.FindWithPredecessor` | src/papi-5.4.3/src/cpus.c:157-166 | The loop of the removal stops at the member and its predecessor within one lap; the predecessor is the member itself only in a ring of one. |
| `CpuRing.CpuList.RemoveCpu` | src/papi-5.4.3/src/cpus.c:145-186 | Removing takes out exactly the given member, the head included, and keeps the order of the others. |
| `CpuModel.WalkEndsForMembers` | src/papi-5.4.3/src/cpus.c:157-166 | Following the links until the entry is met again ends exactly for members of the ring, within one lap; so the branch for an entry that was not found is never reached. |
| `CpuRing.CpuList.LookupOrCreate` | src/papi-5.4.3/src/cpus.c:58-83 | The locked section is an attach step of the protocol: a node for the cpu, found or new, at the head, with one more user. |
| `CpuRing.CpuList.ReleaseUser` | src/papi-5.4.3/src/cpus.c:189-206 | The locked section is a release step: one user less, and off the ring exactly with the last. |
| `CpuModel.AttachKeepsForm` | src/papi-5.4.3/src/cpus.c:58-83 | Attaching keeps nodes and cpus distinct and puts the node of the cpu at the head. |
| `CpuModel.ReleaseKeepsForm` | src/papi-5.4.3/src/cpus.c:189-206 | Releasing keeps nodes and cpus distinct. |
| `CpuLifetime.RunsKeepInv` | src/papi-5.4.3/src/cpus.c:58-239 | The invariant of list, handles, overwritten handles, nodes being freed and allocated memory holds after every run, in any interleaving. |
| `CpuLifetime.UseCountsAreHandles` | src/papi-5.4.3/src/cpus.c:58-83 | In every interleaving num_users is the number of handles on the node plus the number of handles on it that a second attach of their event set overwrote; a node is listed exactly when there is such a handle, and then it is allocated. |
| `CpuLifetime.FreeingIsSafe` | src/papi-5.4.3/src/cpus.c:189-239 | In every interleaving, with second attaches too, a node being freed outside the lock is allocated, freed once, on no list and held by nobody. |
| `CpuLifetime.NothingLeaksIff` | src/papi-5.4.3/src/cpus.c:58-239 | When no event set is attached and nothing is being freed, no node is left exactly when no attach was made by an event set that was still attached. |
| `CpuLifetime.SecondAttachLeaks` | src/papi-5.4.3/src/papi.c:3570-3597 | The run in which one event set attaches to two cpus and is then cleaned up, which the option handler admits, leaves the first cpu's node for good. |
| `PmuRegisters.ResetFrees` | src/libcipcm/ipcm-2.6/cpucounters.cpp:1912-1941 | From any register state a reset leaves no core in use, for any core count and counter maximum. |
| `PmuRegisters.ProgramThenCleanFrees` | src/libcipcm/ipcm-2.6/cpucounters.cpp:1331-1468 | Programming in the default mode and cleaning up leaves no core in use, from any register state. |
| `PmuRegisters.ProgrammedIsInUse` | src/libcipcm/ipcm-2.6/cpucounters.cpp:1803-1850 | A programmed machine reads as in use exactly when there is a core and a counter to look at. |
| `PmuRegisters.CleanupClearsAllWritten` | src/libcipcm/ipcm-2.6/cpucounters.cpp:1883-1910 | Cleaning up zeroes every event select that programming wrote exactly when the machine reports at least as many counters as programming uses. |
| `PmuRegisters.ThirdSelectStays` | src/libcipcm/ipcm-2.6/cpucounters.cpp:1902-1905 | With two counters reported and four programmed the third event stays selected. |
| `Pmu.PCM.PMUinUse` | src/libcipcm/ipcm-2.6/cpucounters.cpp:1803-1850 | Reports whether some core has an event selected, an overflow interrupt on, or a fixed counter with a handler or in one ring only. |
| `Pmu.PCM.CleanupPMU` | src/libcipcm/ipcm-2.6/cpucounters.cpp:1883-1910 | Leaves every core with only its fixed counters enabled and its reported event selects zero, and nothing else changed; no generic counter runs on any core. |
| `Pmu.PCM.ResetPMU` | src/libcipcm/ipcm-2.6/cpucounters.cpp:1912-1941 | Leaves every core disabled, its event selects zero, and its fixed control zero if any fixed counter was on; no counter runs on any core. |
| `Pmu.PCM.ProgramCore` | src/libcipcm/ipcm-2.6/cpucounters.cpp:1374-1468 | Writes one core's share of the default programming, reserved bits kept; afterwards exactly the generic counters of the default events run, each counting its own event in both rings, and so do the three fixed counters. |
| `Pmu.PCM.DecrementInstanceSemaphore` | src/libcipcm/ipcm-2.6/cpucounters.cpp:2040-2061 | A semaphore at zero stays there and is nobody's last instance; otherwise it drops by one, and the last instance is the one that takes it to zero. |
| `Pmu.PCM.Program` | src/libcipcm/ipcm-2.6/cpucounters.cpp:1133-1468 | The call with the lock held is the protocol's program step, including the refusal that gives its place in the semaphore back; when it succeeds as the first instance, every core counts the default events. |
| `Pmu.PCM.Cleanup` | src/libcipcm/ipcm-2.6/cpucounters.cpp:1943-1953 | The call with the lock held is the protocol's cleanup step. |
| `PmuCounting.ProgrammedCounts` | src/libcipcm/ipcm-2.6/cpucounters.cpp:1374-1468 | On a programmed core exactly the generic counters below the number of default events run, each with its own event and umask, in both rings and unfiltered, from zero; all three fixed counters count. |
| `PmuCounting.CountedEvents` | src/libcipcm/ipcm-2.6/cpucounters.cpp:1241-1310 | Which of the named events each counter of a programmed core counts, family by family: the ones the cache getters take the four events for. |
| `PmuCounting.EnableBits` | src/libcipcm/ipcm-2.6/cpucounters.cpp:1461-1467 | The value written to the global control has exactly the bits of the first n generic counters and of the three fixed ones. |
| `PmuCounting.CleanedKeepsFixed` | src/libcipcm/ipcm-2.6/cpucounters.cpp:1883-1910 | On a cleaned core no generic counter runs, and a fixed one runs exactly if its field in the fixed control has a ring. |
| `PmuCounting.ResetStopsAll` | src/libcipcm/ipcm-2.6/cpucounters.cpp:1912-1941 | On a reset core no counter runs, and no fixed counter's field has a ring or an interrupt left. |
| `PmuCounting.InUseIff` | src/libcipcm/ipcm-2.6/cpucounters.cpp:1803-1850 | A core is in use exactly when one of the reported selects has an event or an interrupt, or a fixed counter an interrupt or one ring without the other. |
| `PmuCounting.HeldCounts` | src/libcipcm/ipcm-2.6/cpucounters.cpp:1201-1468 | In every run, whenever the semaphore is positive every core counts the default events. |
| `PmuCounting.LastLeavesFixed` | src/libcipcm/ipcm-2.6/cpucounters.cpp:1943-1953 | In every run, the step that takes the semaphore to zero leaves on every core the three fixed counters counting and no generic one running. |
| `PmuProtocol.SemaphoreCounts` | src/libcipcm/ipcm-2.6/cpucounters.cpp:1193-1210 | In every state of every run of any number of processes the semaphore is the number of successful programs not yet cleaned up. |
| `PmuProtocol.OnlyFirstAndLastWrite` | src/libcipcm/ipcm-2.6/cpucounters.cpp:1201-1234 | Only a step that takes the semaphore from or to zero writes control registers: the first program on a free machine, and the cleanup by the one process that still owes it. |
| `PmuProtocol.StableWhileHeld` | src/libcipcm/ipcm-2.6/cpucounters.cpp:1201-1210 | While the semaphore stays positive no step of any process changes a control register of any core. |
| `PmuProtocol.HeldIsAsProgrammed` | src/libcipcm/ipcm-2.6/cpucounters.cpp:1201-1234 | Whenever the semaphore is positive, the control registers are exactly what one program call wrote when it found the machine free and the semaphore at zero, and the semaphore has been positive since. |
| `PmuProtocol.BusyIffFoundBusy` | src/libcipcm/ipcm-2.6/cpucounters.cpp:1230-1234 | At any point of any run, program reports PMUBusy exactly when the machine was already in use before the first process came. |
| `PmuProtocol.UnpairedCleanup` | src/libcipcm/ipcm-2.6/cpucounters.cpp:2040-2048 | A cleanup that was not paired with a program leaves the semaphore equal to what is owed exactly when it is zero. |
| `PmuProtocol.UnpairedCleanupExample` | src/libcipcm/ipcm-2.6/cpucounters.cpp:2040-2055 | Of two instances, one that cleans up twice takes the semaphore to zero while the other still runs. |
| `Topology.Parse` | src/libcipcm/ipcm-2.6/cpucounters.cpp:628-659 | The loop over the lines yields one entry for each numbered processor line, in order, with the last physical and core id read before the next processor line; all the physical ids; and as many threads as entries with socket 0 and core 0. |
| `Topology.PrefixFollows` | src/libcipcm/ipcm-2.6/cpucounters.cpp:628-654 | After any number of lines, the numbered processor lines but the last have exactly one entry each, in order, and the open entry has the last number and ids read. |
| `Topology.EntriesPerProcessor` | src/libcipcm/ipcm-2.6/cpucounters.cpp:628-659 | Every numbered processor line has exactly one entry, in order, with its number and the last physical and core id read before the next processor line or the end. |
| `Topology.IdsAreRecorded` | src/libcipcm/ipcm-2.6/cpucounters.cpp:641-647 | The ids recorded are exactly those of the physical-id lines. |
| `Topology.ThreadsAreOnFirst` | src/libcipcm/ipcm-2.6/cpucounters.cpp:635-636 | The thread count is the number of entries with socket 0 and core 0, by the ids as read. |
| `Topology.NumberIds` | src/libcipcm/ipcm-2.6/cpucounters.cpp:765-769 | The recorded ids, in ascending order, are numbered from 0. |
| `Topology.RankKeepsOrder` | src/libcipcm/ipcm-2.6/cpucounters.cpp:765-769 | The numbering keeps the order of the ids and is one-to-one, below their number. |
| `Topology.RankIsOnto` | src/libcipcm/ipcm-2.6/cpucounters.cpp:765-769 | Every number below the number of ids is used. |
| `Topology.RenumberedMeans` | src/libcipcm/ipcm-2.6/cpucounters.cpp:771-774 | Renumbering keeps numbers and core ids; cores with recorded ids are on the same or on a lower socket exactly as their ids are, and a core without one is on socket 0. |
| `Topology.SocketsInRange` | src/libcipcm/ipcm-2.6/cpucounters.cpp:761-774 | Every renumbered socket is below num_sockets, also without any recorded id. |
| `Topology.SocketsNamedIffCovered` | src/libcipcm/ipcm-2.6/cpucounters.cpp:765-774 | Every socket has a core exactly when there is a core and each recorded id is some core's id; for the smallest id a core without a recorded id does as well. |
| `Topology.SocketWithoutCore` | src/libcipcm/ipcm-2.6/cpucounters.cpp:628-659 | Two physical ids in one processor's block make two sockets, the first of them without a core. |
| `Topology.RefCores` | src/libcipcm/ipcm-2.6/cpucounters.cpp:801-814 | Each socket with a core gets the last of its cores as reference, the others core 0. |
| `Topology.WellFormedIsCovered` | src/libcipcm/ipcm-2.6/cpucounters.cpp:628-659 | With at most one physical id in each processor block and at least one core, all recorded ids are covered. |
| `Topology.Discover` | src/libcipcm/ipcm-2.6/cpucounters.cpp:761-814 | From the lines to the reference cores: all sockets in range, and every reference core lies on its socket exactly when the recorded ids are covered, which well-formed input with a core guarantees. |
| `Counters.PlusLaws` | src/libcipcm/ipcm-2.6/cpucounters.h:888-902 | Adding counter states field by field with 64-bit wrap-around is associative and commutative and has the fresh state as its unit. |
| `Counters.GetOfPlus` | src/libcipcm/ipcm-2.6/cpucounters.h:1548-1733 | Every getter listed, the three-term L2 miss getter included, of two sums is the sum of the getters, modulo 2^64. |
| `Counters.GetComposes` | src/libcipcm/ipcm-2.6/cpucounters.h:1263-1266 | get(a, b) + get(b, c) = get(a, c) modulo 2^64 for every getter listed. |
| `Counters.CoreGettersAreGrowth` | src/libcipcm/ipcm-2.6/cpucounters.h:1263-1266 | For each getter of one core counter, that counter before plus the getter is the counter after, modulo 2^64; custom event n is counter n. |
| `Counters.AtomCacheGetters` | src/libcipcm/ipcm-2.6/cpucounters.h:1548-1647 | On an ATOM event 0 grows by the L2 misses and event 1 by the L2 misses and hits together; the L3 getters are 0. |
| `Counters.CacheGetters` | src/libcipcm/ipcm-2.6/cpucounters.h:1548-1647 | Elsewhere events 0 to 3 grow by the L3 misses, the L3 hits without and with a snoop, and the L2 hits; the L3 hits are those two together, and the L2 misses are the L3 hits and the L3 misses. |
| `Counters.UncoreGetters` | src/libcipcm/ipcm-2.6/cpucounters.h:1701-1717 | When a memory controller's counter has grown by d, the bytes read or written are 64 d modulo 2^64; the energy getters are the growth of their counters. |
| `Counters.GrowthIsSub` | src/libcipcm/ipcm-2.6/cpucounters.h:1263-1266 | A counter's growth between two states is determined by them: it is what the subtraction yields. |
| `Aggregation.OneMoreCore` | src/libcipcm/ipcm-2.6/cpucounters.cpp:2650-2653 | A core adds its counters to the sum over the sockets once, if its socket is among them. |
| `Aggregation.HierarchicalIsFlat` | src/libcipcm/ipcm-2.6/cpucounters.cpp:2650-2659 | For every topology the sockets' totals add up to the flat total over all cores and sockets, field by field modulo 2^64. |
| `Aggregation.DifferencesAddUp` | src/libcipcm/ipcm-2.6/cpucounters.cpp:2655-2659 | The system's difference between two snapshots is the sum of the sockets' differences, and for getters of core events the sum of the cores' differences. |
| `CounterStates.GetSystemCounterState` | src/libcipcm/ipcm-2.6/cpucounters.cpp:2397-2417 | The loop computes the flat total of the snapshot. |
| `CounterStates.GetSocketCounterState` | src/libcipcm/ipcm-2.6/cpucounters.cpp:2605-2623 | The loop computes the total of the socket's own cores and its own counters, and nothing of other sockets. |
| `CounterStates.GetAllCounterStates` | src/libcipcm/ipcm-2.6/cpucounters.cpp:2625-2660 | From one snapshot the system's state equals the flat reading, each socket's equals its own reading, and each core's is its basic counters. |
| `CounterStates.CounterState.ReadSocket` | src/libcipcm/ipcm-2.6/cpucounters.cpp:2419-2482 | Each of the socket's own controller and energy counters is added to the field it belongs to; C-states and core counters stay. |
| `Aggregation.SocketTotalReads` | src/libcipcm/ipcm-2.6/cpucounters.cpp:2605-2623 | Every field of a socket's state is the sum of what the socket's own cores read for it plus what the socket's own controller or energy register reads, modulo 2^64. |
| `Aggregation.SystemTotalReads` | src/libcipcm/ipcm-2.6/cpucounters.cpp:2397-2417 | Every field of the system's state is the sum of what all cores and all sockets read for it, modulo 2^64. |
| `Aggregation.OneSocketChanges` | src/libcipcm/ipcm-2.6/cpucounters.cpp:2419-2482 | When one socket's own readings change, its total changes by exactly that amount in every field, and no other socket's total changes. |
| `Aggregation.SystemChanges` | src/libcipcm/ipcm-2.6/cpucounters.cpp:2397-2417 | And the system's total changes by exactly that amount. |
| `Aggregation.EachSocketItsOwn` | src/libcipcm/ipcm-2.6/cpucounters.cpp:2605-2623 | With controllers that read 5 and 9, the second socket's total is 9 and the system's 14. |
| `CounterStates.AccumulateCores` | src/libcipcm/ipcm-2.6/cpucounters.cpp:2650-2653 | The loop brings every socket's state to its full total, each core counted once. |
| `CounterStates.AccumulateSockets` | src/libcipcm/ipcm-2.6/cpucounters.h:1203-1207 | The loop leaves in the system state the sum of the sockets' totals. |
| `ExtractBits.ExtractIsQuotientRemainder` | src/libcipcm/ipcm-2.6/cpucounters.cpp:217-251 | The extracted field is (x div 2^min) mod 2^(|e-b|+1), for bounds in either order and up to bit 63. |
| `ExtractBits.CounterValueWraps` | src/libcipcm/ipcm-2.6/cpucounters.cpp:253-283 | A counter of width w is its register modulo 2^w; width 0 is the identity. |
| `ExtractBits.MaskIsRemainder` | src/libcipcm/ipcm-2.6/cpucounters.cpp:248-249 | Masking with w ones is the remainder modulo 2^w. |
| `WidthExtender.CounterWidthExtender.Read` | src/libcipcm/ipcm-2.6/width_extender.h:88-116 | A read by either thread keeps the extended value congruent to the raw value it records and advances it by the raw advance modulo 2^32. |
| `WidthExtender.ExtendCongruent` | src/libcipcm/ipcm-2.6/width_extender.h:97-107 | Whatever the hardware returns, the extended value stays congruent to it modulo 2^32. |
| `WidthExtender.ExtendedIsCounted` | src/libcipcm/ipcm-2.6/cpucounters.cpp:3495-3513 | In every interleaving of client and watchdog the extended value is the sum of the advances modulo 2^32, modulo 2^64. |
| `WidthExtender.KeepsUpIffInTime` | src/libcipcm/ipcm-2.6/width_extender.h:97-107 | What is counted never runs ahead of the hidden counter, and equals its growth exactly when every read came less than 2^32 counts after the one before. |
| `WidthExtender.GrowthIsExactIffInTime` | src/libcipcm/ipcm-2.6/width_extender.h:88-131 | While 64 bits hold the count the extended value never decreases, and it grows exactly as the hidden counter exactly when all reads came in time. |
| `WidthExtender.LateReadMissesCounts` | src/libcipcm/ipcm-2.6/width_extender.h:97-107 | A read 2^32 counts after the one before leaves the extended value where it was. |
| `OverflowModel.ExactlyOnceIffSelfOwned` | src/papi-5.4.3/src/extras.c:276-347 | In software overflow every event whose latest count has reached its deadline gets exactly one dispatch, whose excess added to the deadline is the latest count, and no other event gets any, exactly when no such event's position is among the terms of an earlier event. |
| `OverflowModel.CallsCarry` | src/papi-5.4.3/src/extras.c:282-345 | Whether positions are shared or not, a dispatch carries the latest count less the deadline if the event has reached it, and -1 otherwise. |
| `OverflowModel.ScansLeading` | src/papi-5.4.3/src/extras.c:325-330 | The search sees exactly the terms of an event before its first negative one. |
| `OverflowModel.DisjointTermsSuffice` | src/papi-5.4.3/src/extras.c:312-347 | Events with no counter position in common are dispatched right. |
| `OverflowModel.DrainSucceedsIffOwned` | src/papi-5.4.3/src/extras.c:314-341 | Draining ends without the error exactly when every set bit belongs to some event. |
| `OverflowModel.SoftwareNeverFails` | src/papi-5.4.3/src/extras.c:276-341 | In software overflow that error does not happen. |
| `OverflowModel.CallHasBit` | src/papi-5.4.3/src/extras.c:314-347 | Every dispatch answers a set bit, and goes to the first event whose terms have it. |
| `OverflowModel.BitGetsCall` | src/papi-5.4.3/src/extras.c:314-347 | Every set bit gets its dispatch when all bits belong to events. |
| `OverflowModel.VectorHasCause` | src/papi-5.4.3/src/extras.c:285-291 | Every set bit of the overflow vector is the position of an event past its deadline. |
| `OverflowModel.VectorHasAll` | src/papi-5.4.3/src/extras.c:285-291 | Without shared positions no event's bit is cancelled by another's. |
| `OverflowModel.ReachedIsSelfOwned` | src/papi-5.4.3/src/extras.c:282-347 | If every event past its deadline is dispatched at all, each is the first event with its own position. |
| `OverflowModel.DeadlinesAheadIffPositive` | src/papi-5.4.3/src/extras.c:294-296 | When every event that has reached its deadline is re-armed a threshold after its latest count and all others are left alone, the deadlines lie strictly above the latest counts exactly when the re-armed events have positive thresholds. |
| `OverflowModel.ZeroThresholdStaysMet` | src/papi-5.4.3/src/extras.c:294-296 | With threshold 0 a deadline that was met stays at the latest count. |
| `OverflowModel.SharedPositionLosesBoth` | src/papi-5.4.3/src/extras.c:285-291 | Two events past their deadlines on counter 3 cancel each other's bit, and neither is dispatched. |
| `OverflowModel.LaterTermTakesTheCall` | src/papi-5.4.3/src/extras.c:317-342 | An overflow on counter 5 is dispatched for an earlier event whose second term is counter 5, with its mark of -1 as excess. |
| `Overflow.Ffsll` | src/papi-5.4.3/src/extras.c:501-521 | Going through the two halves of a word finds the lowest set bit, counted from one, and zero for a zero word. |
| `Overflow.TakeLowest` | src/papi-5.4.3/src/extras.c:314-347 | One turn takes the lowest bit out and leaves one bit less: the draining loop ends. |
| `Overflow.EventSetInfo.ScanDeadlines` | src/papi-5.4.3/src/extras.c:276-298 | The scan yields the vector and the excesses; the deadline of an event that has reached it becomes the latest count plus the threshold, every other deadline stays. |
| `Overflow.EventSetInfo.FindEvent` | src/papi-5.4.3/src/extras.c:317-331 | The search finds the first event one of whose terms, up to the first negative one, has the bit. |
| `Overflow.EventSetInfo.Drain` | src/papi-5.4.3/src/extras.c:313-346 | The loop makes exactly the dispatches the specification lists, lowest bit first, and fails exactly when it does. |
| `Overflow.EventSetInfo.DispatchOverflow` | src/papi-5.4.3/src/extras.c:218-362 | Gives up in the order of the checks, with their codes and without effect. In software mode with profiling the dispatches are right exactly when no event that has reached its deadline has its position among an earlier one's terms, and the deadlines are re-armed; in hardware mode they stay, and the bits are dispatched with excess 0. The pause ends unless draining failed. |
| `Words.FfsLowest` | src/papi-5.4.3/src/extras.c:501-521 | ffs is one more than the index of a set bit below which none is set. |
| `Words.FfsByParts` | src/papi-5.4.3/src/extras.c:511-519 | The lowest set bit of a word is that of its low half, or of its high half when the low half is zero. |
| `ProfileModel.ChosenIff` | src/papi-5.4.3/src/extras.c:184-193 | A sample goes to the first region with the greatest non-null start strictly below the pc, and to region 0 exactly when there is none. |
| `ProfileModel.FirstAddressIff` | src/papi-5.4.3/src/extras.c:184-193 | The first address of a region is counted for that region only if it is region 0 and no other start lies below. |
| `ProfileModel.NeighbourTakesFirstAddress` | src/papi-5.4.3/src/extras.c:184-193 | With regions at 100 and 200 the sample at 200 is counted for the first. |
| `ProfileModel.HitIsInside` | src/papi-5.4.3/src/extras.c:126-164 | A sample is counted exactly when it is not before its region and its bucket begins inside the histogram. |
| `ProfileModel.BucketsIff` | src/papi-5.4.3/src/extras.c:131-153 | The buckets are those that begin before the histogram's end. |
| `ProfileModel.FlagWidths` | src/papi-5.4.3/src/papi.h:392-402 | The flag values 8, 16 and 32 ask for buckets of 2, 4 and 8 bytes, and the smallest wins. |
| `ProfileModel.ModulusIsWidth` | src/papi-5.4.3/src/extras.c:129-163 | A bucket wraps around at 2 to the number of its bits. |
| `ProfileModel.WholeProgram` | src/papi-5.4.3/src/extras.c:107-111 | With start 0 and scale 2 every sample falls in the first bucket. |
| `ProfileModel.BucketCovers` | src/papi-5.4.3/src/extras.c:119-122 | Bucket k holds exactly the addresses whose scaled offset lies in the k-th block of 131072. |
| `ProfileModel.IndexIsMonotone` | src/papi-5.4.3/src/extras.c:119-122 | Later addresses of a region never fall in earlier buckets, while the product fits its word. |
| `ProfileModel.NeverSkipsIff` | src/papi-5.4.3/src/extras.c:111-118 | Neighbouring addresses are at most one bucket apart for all addresses exactly when the scale is at most 131072. |
| `ProfileModel.AlwaysDividesIff` | src/papi-5.4.3/src/extras.c:82-91 | No excess leads to a division by zero exactly when the threshold is below 2 or at least 255. |
| `ProfileModel.WeightMeans` | src/papi-5.4.3/src/extras.c:82-91 | The weight is 1 up to an excess of 1, 255 above the threshold, and in between the number w of whole 255ths of the threshold: w parts do not exceed the excess, w + 1 parts do. |
| `ProfileModel.NeverDecreasesIff` | src/papi-5.4.3/src/extras.c:82-91 | From an excess of 2 on a larger excess never weighs less exactly when the threshold is below 2, or at least 255 with threshold mod 255 < threshold div 255. |
| `ProfileModel.ByteIff` | src/papi-5.4.3/src/extras.c:82-91 | Weighted increments are in 0..255 for every excess exactly when the threshold is below 2, or at least 255 with threshold mod 255 < threshold div 255. |
| `ProfileModel.LargeThresholdsFit` | src/papi-5.4.3/src/extras.c:82-91 | Every threshold of at least 65025 keeps the weighted increment in 0..255. |
| `ProfileModel.CommentedRangeIff` | src/papi-5.4.3/src/extras.c:82-91 | The range 1..255 that the comment gives holds for every excess exactly with a threshold below 2 or one of 255, 510 and 511. |
| `ProfileModel.WeightedExamples` | src/papi-5.4.3/src/extras.c:82-91 | An excess of 2 adds 0 with threshold 1000, an excess of 764 adds 382 with threshold 764, and with threshold 254 an excess of 254 divides by zero. |
| `ProfileRuns.DispatchIsDeposit` | src/papi-5.4.3/src/extras.c:126-163 | A dispatch that need not divide by zero changes at most one bucket of one region: it is one deposit, modulo the bucket width. |
| `ProfileRuns.RunIsDeposits` | src/papi-5.4.3/src/extras.c:168-197 | The histograms after a run of the dispatcher, which hands the generator's state and the buckets from sample to sample, are those of the deposits its samples make. |
| `ProfileRuns.BucketsHoldTheirDeposits` | src/papi-5.4.3/src/extras.c:126-163 | After any sequence of deposits a bucket holds what it held before plus all that was deposited in it, modulo its width. |
| `ProfileRuns.RunsHoldTheirDeposits` | src/papi-5.4.3/src/extras.c:168-197 | After any run of samples every bucket of every region holds what it held before plus all the run deposited in it, modulo its width. |
| `ProfileRuns.RunsComplete` | src/papi-5.4.3/src/extras.c:82-91 | A run that is not weighted, or whose threshold is below 2 or at least 255, never divides by zero. |
| `ProfileRuns.AmountMeans` | src/papi-5.4.3/src/extras.c:60-93 | A sample adds 0 when dropped, 1 without weights or up to an excess of 1, 255 above the threshold, and otherwise the whole 255ths of the threshold in its excess. |
| `ProfileRuns.PlainRunsCount` | src/papi-5.4.3/src/extras.c:168-197 | After any run without dropping and weighting, every bucket of every region has grown by the number of samples that belong to it, modulo its width. |
| `ProfileRuns.UpperHalfIsKept` | src/papi-5.4.3/src/extras.c:155-161 | A 64-bit bucket is compared as a signed number, so COMPRESS drops none of its samples once it is in its upper half. |
| `Profile.Profiler.ProfilIncrement` | src/papi-5.4.3/src/extras.c:60-93 | Unless it divides by zero, the increment is the specified amount, which is 0 for a dropped sample and the weight otherwise, and the generator makes one draw for each flag that is looked at. |
| `Profile.Profiler.PosixProfil` | src/papi-5.4.3/src/extras.c:97-165 | Changes at most the sample's own bucket, by the amount modulo its width, and nothing when the sample is out of range. |
| `Profile.Profiler.ChooseRegion` | src/papi-5.4.3/src/extras.c:184-193 | The scan computes the chosen region. |
| `Profile.Profiler.DispatchProfile` | src/papi-5.4.3/src/extras.c:168-197 | Updates the chosen region's histogram by this one sample and no other histogram. |
| `Profile.Profiler.DispatchStep` | src/papi-5.4.3/src/extras.c:168-197 | With a histogram for each region, a call is one step of the run, for the histograms and the generator. |
| `Generator.JumpsAll` | src/papi-5.4.3/src/extras.c:48-52 | 2^k steps of the generator, without its word width, move every number by an odd multiple of 2^k. |
| `Generator.DrawsDiffer` | src/papi-5.4.3/src/extras.c:48-52 | Of any 65536 draws in a row no two are equal. |
| `Generator.OneDraw` | src/papi-5.4.3/src/extras.c:70-80 | With one of the two flags every sample makes one draw. |
| `Generator.BothFlags` | src/papi-5.4.3/src/extras.c:70-80 | With both flags COMPRESS compares the second draw, which is made only if the first one keeps the sample. |
| `Generator.FirstDraws` | src/papi-5.4.3/src/extras.c:41-52 | The first three draws of a process are 57218, 6393 and 28164. |
| `Generator.RandomDropsAQuarter` | src/papi-5.4.3/src/extras.c:70-73 | The RANDOM flag alone drops exactly a quarter of any 65536 samples in a row. |
| `Generator.DropsTheBound` | src/papi-5.4.3/src/extras.c:70-80 | With one of RANDOM and COMPRESS set, of any 65536 samples in a row on a bucket of one value exactly as many are dropped as there are numbers below the bound the draw is compared with. |
| `Generator.CompressDropsInProportion` | src/papi-5.4.3/src/extras.c:75-80 | The COMPRESS flag alone drops, of 65536 samples in a row on a bucket of value v, exactly v; on an empty bucket none. |
| `PowerModel.TableAfterTabulates` | src/papi-5.4.3/src/aix.c:118-134 | One more event of a counter's list, noted in the entry with its name or in a new one, keeps the table right: one entry per name, each with the commands and selector bits of the lists so far. |
| `PowerGroups.Substrate.BuildTable` | src/papi-5.4.3/src/aix.c:112-136 | The loops leave one entry per distinct name, with the command of the last entry of that name in each counter's list, and return the number of names. |
| `PowerModel.CommandIsAnId` | src/papi-5.4.3/src/aix.c:118-134 | The command of a listed name is the id of the last entry of the list with that name. |
| `PowerModel.ListedIff` | src/papi-5.4.3/src/aix.c:118-134 | A name is listed exactly when some entry of the list has it; otherwise its command is -1. |
| `PowerModel.MarkRowsMark` | src/papi-5.4.3/src/aix.c:72-88 | An event's mask has exactly the numbers of the groups that run its command on a counter it selects. |
| `PowerGroups.Substrate.MarkGroups` | src/papi-5.4.3/src/aix.c:73-87 | The loops set one entry's mask and nothing else. |
| `PowerGroups.Substrate.SetupGps` | src/papi-5.4.3/src/aix.c:68-102 | Every entry gets its mask and, with unique group numbers, every group's commands are found under its number. |
| `PowerGroups.Substrate.SetupNativeTable` | src/papi-5.4.3/src/aix.c:104-140 | Returns the number of distinct names and leaves tables from which every allocation can start. |
| `PowerModel.MaskIffCounts` | src/papi-5.4.3/src/aix.c:75-86 | With unique group numbers, a group's bit is in an event's mask exactly when on some counter the group's command is the one the lists give the event. |
| `PowerModel.MeetHas` | src/papi-5.4.3/src/aix.c:165-171 | The conjunction of the masks has exactly the groups that all of them have. |
| `PowerModel.FirstWordHasLowest` | src/papi-5.4.3/src/aix.c:173-178 | The lowest bit of the first non-zero word is the lowest group of the mask. |
| `PowerModel.LowestBitIsLowestGroup` | src/papi-5.4.3/src/aix.c:165-181 | The chosen group is the lowest-numbered one that counts all requested events, and there is none exactly when the result is negative. |
| `PowerModel.PositionIsOwn` | src/papi-5.4.3/src/aix.c:183-190 | In a group that counts the event its position is a counter whose group command is the event's own. |
| `PowerModel.PositionsDiffer` | src/papi-5.4.3/src/aix.c:183-190 | Different events get different positions when ids tell the events of a counter apart. |
| `PowerModel.AllPlaced` | src/papi-5.4.3/src/aix.c:183-191 | The recorded positions of a request put every event on a counter that runs its own command in the group, and different events on different counters, when ids are non-negative and tell the events of a counter apart. |
| `PowerModel.CodesPlaced` | src/papi-5.4.3/src/aix.c:183-191 | So do they for different codes of a table with one entry for each name. |
| `PowerGroups.Substrate.DoCounterAllocation` | src/papi-5.4.3/src/aix.c:160-193 | Yields the lowest group common to all masks, negative if there is none, and for it the last matching counter of each event. |
| `PowerGroups.Substrate.AllocateRegisters` | src/papi-5.4.3/src/aix.c:200-251 | Succeeds exactly when some group counts all the known events requested; then the lowest such group is recorded with the positions, which with good ids run each event's own command and differ for different codes. On failure nothing is recorded. |
| `ShlibModel.RoomIsOwnTexts` | src/papi-5.4.3/src/linux-memory.c:983-1023 | The filling pass uses the entries the counting pass made room for, less one for each executable mapping of the program itself. |
| `ShlibModel.FillIsRight` | src/papi-5.4.3/src/linux-memory.c:1015-1041 | The map lists exactly the executable mappings of other files, in order, each with the first data and the first bss mapping before the next of them, mappings at address zero being passed over. |
| `ShlibMap.Mdi.CountPass` | src/papi-5.4.3/src/linux-memory.c:982-1014 | Counts all executable mappings and leaves in the program's own record the last text, data and bss mapping that are its own. |
| `ShlibModel.SegmentsMean` | src/papi-5.4.3/src/linux-memory.c:983-1014 | The program's text is the last executable readable mapping of its file, its data the last other writable one, its bss the last anonymous writable mapping on the line after one of its file; each is left alone when there is none. |
| `ShlibModel.SmallMap` | src/papi-5.4.3/src/linux-memory.c:983-1041 | A library, the program's data with anonymous memory behind it, the library's data and the program's code: what the map and the program's own record hold. |
| `ShlibMap.Mdi.FillPass` | src/papi-5.4.3/src/linux-memory.c:1015-1041 | Never indexes past the entries the counting pass made room for, and fills them as specified. |
| `ShlibMap.Mdi.UpdateShlibInfo` | src/papi-5.4.3/src/linux-memory.c:935-1071 | A file that cannot be opened changes nothing, and entries that cannot be allocated change only the program's own record; else the map is right after both passes, and its length exceeds the count by exactly the program's own executable mappings. |

## Left out

- BitmaskMaps.RegAlloc.MapSet: the Pentium 4 branch, which also picks an ESCR register, is not modelled.
- BitmaskMaps.RegAlloc.MapShared: the Pentium 4 branch, which also compares ESCR and PEBS registers, is not modelled.
- BitmaskMaps.RegAlloc.MapPreempt: the Pentium 4 branch, which also takes the counters of shared ESCR registers, is not modelled.
- BitmaskMaps.RegAlloc.MapUpdate: the Pentium 4 branch, which also copies the ESCR registers, is not modelled.
- BitmaskMaps.Allocate: so Pentium 4 is not an instance of the allocator's contract.
- Bipartite.Alloc: the failure of a workspace allocation, which also returns 0, is not modelled; the queue is a growing sequence instead of an array of fixed length.
- CpuRing.CpuList.LookupOrCreate: allocation and component initialisation are taken to succeed.
- CpuLifetime.FreeingIsSafe: shutting the components down and freeing the parts of a node is one step, and two threads that clean up one event set at once are excluded.
- Pmu.PCM.Program: the default mode only; custom events (whose error return keeps its place in the semaphore), uncore and QPI programming and the perf-events build are not modelled.
- Pmu.PCM.ProgramCore: uncore programming is not modelled, and the intermediate write that disables the core is not visible as a state.
- Pmu.PCM.CleanupPMU: the end of the Jaketown workaround, which writes other registers, is not modelled.
- PmuProtocol.StableWhileHeld: a forced reset while another process is active and writers that do not follow the protocol are excluded.
- Topology.Parse: lines come parsed.
- CounterStates.GetSystemCounterState: QPI counters are not modelled.
- CounterStates.GetAllCounterStates: QPI counters are not modelled; the three classes of core, socket and system states are one, and the hardware is one snapshot that all reads see.
- Counters.GetOfPlus: the getters that are not linear (ratios, frequencies, joules, and those of QPI links) are not modelled, and custom events are those with numbers 0 to 3.
- WidthExtender.CounterWidthExtender.Read: the mutex makes a read one step; thread creation and the watchdog's sleep are not modelled, only the order of its reads.
- Overflow.EventSetInfo.DispatchOverflow: a thread without a running event set is not modelled; a word with its top bit set is a natural number, whose halves are those of the signed word; deadlines do not overflow 64 bits.
- Profile.Profiler.PosixProfil: a histogram is an array of buckets, as many as begin within its size in bytes; the crash of a division by zero is a precondition here and the missing result of a run in ProfileRuns.
- Generator.RandomDropsAQuarter: with both flags set the two draws of a sample share one generator; that mix is not counted.
- Generator.CompressDropsInProportion: holds the bucket's value fixed, and leaves out buckets above 65536, which drop every sample.
- PowerGroups.Substrate.SetupGps: group numbers are in range, so the branch that skips others with a message is not modelled, and a group's commands are copied in one step; group commands are kept as signed numbers, which compare with non-negative commands as the unsigned ones do.
- PowerGroups.Substrate.AllocateRegisters: the request has at least one event, and codes are within the name map, as the code presumes.
- ShlibMap.Mdi.UpdateShlibInfo: lines come parsed.
- The R wrappers, which pass values between R and PAPI.
- Access to MSRs, PCI, memory maps, semaphores and files: registers and lines are values.
- The Windows, macOS, FreeBSD and BlueGene variants and the printing tools.
- Spin locks: a locked section is one step.
