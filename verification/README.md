# Memory-leak tracker and symbolizer: a verified model

This project models the eBPF memory-leak tool `memleak` and the process-lifetime example
`bootstrap`, and proves what their code promises over all runs.

* **Tracker** (`Kernel`, `Tracker`, `Runs`, `Conservation`, `NestedCalls`, `Provenance`, `InitOnce`).
  The four BPF maps (pending requests per thread, live records per address, packed counters per
  stack, result pointers per thread) with the handlers that update them. `Kernel` gives each handler
  as a function on the maps; the class `Tracker.Memleak` performs it step by step and is proved to
  compute that function. Capacities and loader constants are parameters.
* **The traced process** (`Heap`, `HeapSoundness`, `HeapCompleteness`, `HeapCauses`, `HeapOrigin`,
  `HeapExamples`). Threads with stacks of running allocation calls and a ground-truth heap; every
  action of the process fires the probes of the tracker. Main results: in every schedule a recorded
  address is one the program holds, and a held address is unrecorded exactly when one of the listed
  causes gave it up; in orderly schedules nothing is missed or overwritten, and the record of a
  block is that of the outermost wrapper that asked for it.
* **Report** (`Report`, `GroupBy`, `Batch`, `HeapReport`, `Sorting`, `Selection`, `MapSums`). The cursor walk, the
  filters, the grouping by stack and the sort; the report equals the incremental counters, and in
  orderly schedules its rows are the totals of the blocks the program holds.
* **Symbolizer** (`Growth`, `CStrings`, `Search`, `Ksyms`, `SymTable`, `DsoMaps`, `SymsCache`).
  Growing buffers, the string arena with offsets turned into pointers, sort and binary search
  against linear specifications, grouping of mappings, and the per-process cache.
* **Address translation** (`Elf`, `RoundTrip`). From a function name to its file offset, and from a
  runtime address back to the function, in 64-bit modular arithmetic. Segments are those of the
  System V ABI, chapter 5, "Program Header".
* **Process lifetimes** (`ExecHistory`). The exec and exit tracepoints of `bootstrap`.

Where the code does less than its intent, the model keeps the code and states exactly when the
intent is met: an exit overwrites a record exactly when a `posix_memalign` exit gave up on a pending
request before (`OverwritesIff`, `StaleIff`, with the schedule `UnreadableSlotOverwrites`), a failed
`posix_memalign` may record an address that is not live (`FailedPosixMemalignSoundIff`, with
`FailedPosixMemalignRecordsDead`), the counters are wrong from the first exit that finds its address
recorded or the map full (`CountersExactIff`, `BreakShows`, with the run `FullMapDrifts`), held
blocks go unrecorded for exactly the causes in `MissedIff`, the walk would miss records if address 0
were a key (`WalkCompleteIff`), the symbol search misses a containing symbol behind a shorter one
(`CompleteIff`, `EmptySymbolHides`), and an address exactly at the start of a mapping belongs to no
file (`LineStartNotFound`).

Assumptions. A handler is one atomic step, except in `InitOnce`, where the map accesses of all CPUs
interleave and only each access and the counter update are atomic. `gen_free_enter` reads the record
after deleting it; the model reads the record as it was. Time, stack contents, stack ids, results of
user-memory reads, file contents, allocation outcomes of `realloc` and the iteration order of the
kernel hash map are parameters. Hash maps refuse an update only for a new key of a full map
(`InitOnce` also lets an allocation fail). C integers are unbounded integers with the wrap-around
written out where the code relies on it; where C leaves overflow undefined (the `int` capacities of
the kernel symbol buffers) the methods require that it does not happen.

## Model

| member | source | states |
|---|---|---|
| `Tracker.Memleak.LookupOrTryInit` | hub/memleak/maps.bpf.h:28-40 | run alone, finds the entry or creates it at the initial value; an existing entry is untouched; no entry only when the map is full |
| `Tracker.Memleak.UpdateStatisticsAdd` | hub/memleak/memleak.bpf.c:55-65 | the counter of the stack is created if there is room and advanced by one allocation of the size, modulo its field widths; no other counter moves |
| `Tracker.Memleak.UpdateStatisticsDel` | hub/memleak/memleak.bpf.c:67-80 | an existing counter is taken back by one allocation of the size, modulo its field widths; a missing one is not created |
| `Tracker.Memleak.CaptureFrames` | hub/memleak/memleak.bpf.c:115-132 | the used slots are exactly the captured frames of the stack words and the rest of the eight slots is zero |
| `Kernel.FramesAreLeadingWords` | hub/memleak/memleak.bpf.c:119-132 | the captured frames are the longest run of leading readable non-zero words that fits, each minus one |
| `Kernel.StackKeyIs` | hub/memleak/memleak.bpf.c:55-59 | a stack id is its own counter key, and a negative one becomes 2^64 plus it, by sign extension to 64 bits |
| `Tracker.Memleak.GenAllocEnter` | hub/memleak/memleak.bpf.c:82-143 | whole new state; for a thread with nothing pending and room in the map the request becomes pending if and only if its size lies between the limits and, with a sampling rate above 1, the clock is a multiple of it; otherwise nothing changes |
| `Tracker.Memleak.GenAllocExit2` | hub/memleak/memleak.bpf.c:145-179 | whole new state: the pending request is consumed, an address other than 0 and 2^64-1 is recorded with it (overwriting, or refused when full), and the statistics are updated even when it was refused |
| `Tracker.Memleak.GenFreeEnter` | hub/memleak/memleak.bpf.c:186-205 | whole new state: the record is removed and its own size and stack are taken out of the statistics; an unknown address changes nothing |
| `Tracker.Memleak.CallocEnter` | hub/memleak/memleak.bpf.c:225-229 | enters with the product of count and size modulo 2^64 |
| `Tracker.Memleak.ReallocProbe` | hub/memleak/memleak.bpf.c:237-243 | drops the record of the old pointer, then enters |
| `Tracker.Memleak.PosixMemalignEnter` | hub/memleak/memleak.bpf.c:283-291 | remembers the result pointer of the thread (refused when full), then enters |
| `Tracker.Memleak.PosixMemalignExit` | hub/memleak/memleak.bpf.c:293-312 | without a remembered pointer, or when the slot cannot be read, the pending request stays; otherwise the generic exit runs on the address read |
| `Tracker.Memleak.KernelAllocTracepoint` | hub/memleak/memleak.bpf.c:417-439 | optional free, then enter and exit in one event |
| `Runs.ProbesAreOps` | hub/memleak/memleak.bpf.c:207-569 | any run of any probes of any threads leaves the tracking maps as a run of the three primitive handlers does, so every statement about operation sequences covers all schedules |
| `Runs.NeverRecordsNull` | hub/memleak/memleak.bpf.c:164-167 | in no reachable state is 0 or 2^64-1 a key of allocs, and allocs never exceeds its capacity |
| `Runs.TracepointRecords` | hub/memleak/memleak.bpf.c:417-439 | a kernel allocation event leaves nothing pending, forgets what the address held if the free was missing, and records the address for the request already pending or its own filtered one, unless there is none, the address is no block, or the map is full |
| `Runs.NoCountersUnlessCombined` | hub/memleak/memleak.bpf.c:169-170 | in every run without the combined-only option there is no counter at all |
| `Conservation.CountersConserved` | hub/memleak/memleak.bpf.c:55-80 | in every run each existing counter equals, modulo 2^40 and 2^24, the sizes and number of the live records of its stack plus those overwritten or refused by a full map |
| `Conservation.CountersExactIff` | hub/memleak/memleak.bpf.c:164-171 | at every moment of a run every counter shows the live records of its stack, if and only if no exit of the run finds its address recorded, or allocs full, to the cost of a stack that has a counter |
| `Conservation.BreakShows` | hub/memleak/memleak.bpf.c:164-171 | the first exit that overwrites a record, or finds allocs full, makes the counter of the stack that loses the record wrong at once |
| `Conservation.FullMapDrifts` | hub/memleak/memleak.bpf.c:164-171 | a concrete run with room for one record: two blocks of 100 and 50 bytes leave one record of 100 bytes and a counter of 150 bytes in two allocations |
| `Conservation.EveryRunBalances` | hub/memleak/memleak.bpf.c:55-80 | the inductive invariant: a stack without a counter was never charged, or found the counter map full |
| `Conservation.StepKeepsBalance` | hub/memleak/memleak.bpf.c:164-197 | every single handler keeps that invariant |
| `Conservation.RefusedStaysAbsent` | hub/memleak/memleak.bpf.c:59-61 | counters are never deleted, so a stack refused for lack of room is never counted later, whatever runs afterwards |
| `NestedCalls.NestedExit` | hub/memleak/memleak.bpf.c:92-102 | in any interleaving, the exit of a call with no inner call records its own returned address with the request of the highest ancestor reaching it by first-child links; every other exit of the thread changes nothing at all |
| `NestedCalls.NestedLog` | hub/memleak/memleak.bpf.c:147-162 | what each exit of the thread consumed, for the whole forest of calls in return order; nothing is pending at the end |
| `NestedCalls.Interleaved` | hub/memleak/memleak.bpf.c:92-98 | whatever other threads and frees do, the thread behaves as a one-cell automaton on its own firings |
| `NestedCalls.PlayForest` | hub/memleak/memleak.bpf.c:94-98 | playing a well-bracketed forest empties the cell and yields the structurally expected log |
| `NestedCalls.ExpectedByPosition` | hub/memleak/memleak.bpf.c:94-98 | the structural log read by tree positions: leaf calls consume, inner nodes do not, and the consumed request is that of the first-child head |
| `NestedCalls.Head` | hub/memleak/memleak.bpf.c:94-98 | the shortest prefix of a position from which only first-child links follow |
| `Provenance.RecordOrigin` | hub/memleak/memleak.bpf.c:100-167 | every record of every reachable state was captured by one accepted entry that found no pending request and stored by the next exit of the same thread, with the time of that exit, and nothing freed it since |
| `Provenance.PendingOrigin` | hub/memleak/memleak.bpf.c:94-102 | a pending request is the one of the entry after which the thread had no exit; later entries were ignored |
| `Provenance.RecordsPassFilters` | hub/memleak/memleak.bpf.c:84-90 | in every run the size of every record lies between the limits, and the clock of its entry was a multiple of a sampling rate above 1 |
| `Provenance.RecordFrames` | hub/memleak/memleak.bpf.c:115-161 | the record of an address was stored by one exit for the request of one entry, it carries the size and stack id that entry saw, and its frames are the leading readable non-zero words of that entry, each minus one, at most eight |
| `HeapSoundness.LeakSetIsSound` | hub/memleak/memleak.bpf.c:145-205 | in every state of every schedule of threads, nested calls, reallocs, frees and result slots, every record is that of a live address the program holds, and a held address is recorded or among the missed; the missed ones are told by their causes in LeakSetIff |
| `HeapSoundness.AlwaysInv` | hub/memleak/memleak.bpf.c:145-205 | the full invariant: statuses of live addresses match the running calls, records match held addresses, remembered result pointers belong to the innermost posix_memalign |
| `HeapSoundness.KeepsFrames` | hub/memleak/memleak.bpf.c:186-243 | every action keeps each in-transit address tied to exactly one running call |
| `HeapSoundness.KeepsTracked` | hub/memleak/memleak.bpf.c:145-205 | every action keeps records equal to held minus missed |
| `HeapSoundness.KeepsSlots` | hub/memleak/memleak.bpf.c:283-304 | every action keeps the remembered pointer that of the innermost posix_memalign |
| `HeapCauses.PendingIff` | hub/memleak/memleak.bpf.c:87-98 | in every schedule a request of a thread is pending if and only if some entry of the thread that passed the filters and found room was followed by no exit that reached the handler |
| `HeapCauses.StaleIff` | hub/memleak/memleak.bpf.c:298-307 | a pending request has outlived a return if and only if the last return of the thread was a posix_memalign whose exit probe found no remembered pointer or could not read the slot while a request was pending |
| `HeapCauses.ReturnMissesIff` | hub/memleak/memleak.bpf.c:149-167 | a call that obtained an address returns: the tracker misses the address if and only if no accepted entry is waiting, the exit probe gives up, or allocs is full |
| `HeapCauses.MissedIff` | hub/memleak/memleak.bpf.c:82-179 | in every schedule an address is missed if and only if such a return, or a failed realloc whose entry had dropped the record, gave it up, and since then it was neither freed nor recorded by a call that hands it on |
| `HeapCauses.LeakSetIff` | hub/memleak/memleak.bpf.c:82-205 | the leak set of every schedule, filters and full maps included: an address is recorded if and only if the program holds it and none of those causes gave it up |
| `HeapCauses.OverwritesIff` | hub/memleak/memleak.bpf.c:164-167 | an exit of any kind overwrites a record if and only if the last return of its thread was a posix_memalign whose exit gave up on a pending request, its call hands on a recorded address that it did not obtain itself, and its own exit probe reaches the handler |
| `HeapCompleteness.NeverOverwrites` | hub/memleak/memleak.bpf.c:167 | when result slots are readable and the threads that call posix_memalign fit in memptrs, no BPF_ANY insert ever overwrites a record |
| `HeapCompleteness.RecordsImmutable` | hub/memleak/memleak.bpf.c:154-167 | in such schedules a record keeps its contents from creation to removal |
| `HeapCompleteness.LeakSetIsComplete` | hub/memleak/memleak.bpf.c:145-205 | in an orderly schedule (no filter, room, successful reallocs, calls either obtain memory or hand on an inner result) the recorded addresses are exactly those the program holds |
| `HeapCompleteness.MissesNothing` | hub/memleak/memleak.bpf.c:92-102 | the invariant behind it: every fresh call has its request pending, no request is stale, nothing is missed |
| `HeapExamples.UnreadableSlotOverwrites` | hub/memleak/memleak.bpf.c:306-307 | a concrete schedule with the shipped constants in which an unreadable result slot leaves a stale request that later replaces a record of 100 bytes by one of 5 |
| `HeapExamples.FirstCallsAreOrderly` | hub/memleak/memleak.bpf.c:94-167 | a concrete orderly schedule: operator new calling malloc, whose block is recorded |
| `HeapExamples.FailedPosixMemalignSoundIff` | hub/memleak/memleak.bpf.c:293-312 | the exit probe of a failed posix_memalign hands on whatever its slot holds: afterwards every record is still live if and only if that is a held address or no address, or the exit comes to nothing (no remembered pointer, no pending request, full map) |
| `HeapExamples.FailedPosixMemalignRecordsDead` | hub/memleak/memleak.bpf.c:293-312 | a reachable state with the shipped constants in which that exit records an address where nothing lives |
| `HeapOrigin.BlockOrigin` | hub/memleak/memleak.bpf.c:100-167 | in every schedule a record carries size, stack and frames of one accepted entry of the thread whose request was still pending when a return of that thread stored it, has the time of that return, and has stood unchanged since |
| `HeapOrigin.HeldBlockRecord` | hub/memleak/memleak.bpf.c:92-102 | in an orderly schedule the record of a held block was stored by the return of the very call that obtained the block, for the entry that started the chain of first inner calls down to that call |
| `InitOnce.InitialisedAtMostOnce` | hub/memleak/maps.bpf.h:28-40 | with any number of CPUs interleaving the three map accesses, every key present was created by exactly one insert, which found it absent, and was present ever after |
| `InitOnce.NoEntryOnlyAfterFailedInsert` | hub/memleak/maps.bpf.h:33-39 | a CPU is without an entry only when, after its latest begin, its own insert found the key absent and failed, the map full or memory short; past the insert its entry is there |
| `InitOnce.NeverReset` | hub/memleak/maps.bpf.h:28-39 | at any moment of any interleaving the number in an entry is the number of updates of its key made so far modulo 2^24, and its total the sum of their sizes modulo 2^40; a key without an entry has had none |
| `InitOnce.Serializable` | hub/memleak/memleak.bpf.c:59-64 | once no CPU is between insert and update, the counters are those of the same updates run one at a time, in the order in which the CPUs made them |
| `InitOnce.CallIsLatest` | hub/memleak/memleak.bpf.c:55-64 | a CPU in a call works for the key and size with which it began that call, its latest |
| `InitOnce.FinishesCall` | hub/memleak/maps.bpf.h:28-40 | from whatever point of its call, a CPU left alone counts its size under its key, in a new entry where there is none and there is room and memory, and ends idle; without the key and without room or memory it ends without an entry and changes nothing |
| `Report.Printer.PrintOutstandingAllocs` | hub/memleak/memleak.c:624-728 | the rows shown are a permutation of the grouped rows, no row after one of smaller size, with the two warning counts; the stack ids of the used rows are cleared afterwards |
| `Report.Printer.Collect` | hub/memleak/memleak.c:634-704 | the cursor walk leaves in the array exactly the tally of the visited records, in bounds when the map is no larger than the array |
| `Report.Printer.TakeRecord` | hub/memleak/memleak.c:656-703 | one record is filtered by age, counted as missing or collision, or put into the rows |
| `Report.Printer.PutRow` | hub/memleak/memleak.c:671-703 | the row of the stack grows, or a new row is appended |
| `Report.CursorMoves` | hub/memleak/memleak.c:634-645 | the n-th step of the cursor started at 0 yields the n-th visited key, and the walk ends after the last |
| `Report.WalkCompleteIff` | hub/memleak/memleak.c:634-645 | the walk visits no key twice and nothing but keys, and it visits every key if and only if 0 is not a key |
| `Report.TallyMeaning` | hub/memleak/memleak.c:655-704 | the tally is the grouping of the records that survive the filters, and the counts of missing and colliding stacks |
| `Report.SurvivorsInOrder` | hub/memleak/memleak.c:655-667 | the records that are grouped are those whose time stamp is not above the clock minus the minimal age modulo 2^64 and whose stack id is not negative, each once and in the order of the walk |
| `Report.WarningCounts` | hub/memleak/memleak.c:119-124 | the two warning counts: old enough records with a negative stack id other than -14, and with stack id -17 |
| `Report.OldEnoughIff` | hub/memleak/memleak.c:655-658 | a record passes the age filter if and only if it is at least the minimal age old; a clock below the minimal age adds 2^64 |
| `GroupBy.ReportIsGroupBy` | hub/memleak/memleak.c:669-707 | each shown row is the only one of its stack, its size and count are the modular totals of the surviving records of the stack, its frames are those of the first of them, and every surviving stack has a row |
| `GroupBy.GroupIsExact` | hub/memleak/memleak.c:669-703 | grouping any list of records is exact in that sense |
| `GroupBy.CountsAddUp` | hub/memleak/memleak.c:678-693 | the counts of the rows add up to the number of surviving records |
| `GroupBy.ReportAccountsForEveryRecord` | hub/memleak/memleak.c:655-667 | visited records = too young + without a stack + missing + sum of row counts, and collisions are among the missing |
| `Batch.WalkSeesEveryRecord` | hub/memleak/memleak.c:634-645 | on the map of any reachable tracker state the walk visits every record, and there are at most as many rows as the map has room for |
| `Batch.BatchEqualsIncremental` | hub/memleak/memleak.c:669-703 | after any run, the report row of a counted stack equals its packed counter when nothing of the stack was lost, the filters hide nothing and the true totals fit the fields, however often the counter wrapped |
| `Batch.RowFramesCaptured` | hub/memleak/memleak.c:690-702 | the frames of a row are those of the first visited record of the stack that passes the filters; one exit stored that record for the request of one entry, of that stack, and the frames are the leading readable non-zero words of that entry, each minus one, at most eight |
| `HeapReport.HeapRunsOps` | hub/memleak/memleak.bpf.c:207-415 | the tracker side of any schedule of the process is a run of the primitive operations |
| `HeapReport.OrderlyLosesNothing` | hub/memleak/memleak.bpf.c:164-171 | in an orderly schedule no record is ever overwritten or refused |
| `HeapReport.OrderlyCountersExact` | hub/memleak/memleak.bpf.c:55-80 | in an orderly schedule every counter is the modular total of the records of its stack, which are those of the held addresses |
| `HeapReport.ReportCountsHeldBlocks` | hub/memleak/memleak.c:624-707 | in an orderly schedule, with nothing filtered, the report counts every block the program holds exactly once and nothing else |
| `HeapReport.HeldBlocksAsked` | hub/memleak/memleak.bpf.c:92-102 | in an orderly schedule every held block has a request it is charged to: the one of the entry that started its chain of first inner calls |
| `HeapReport.RowsAreHeldBlocks` | hub/memleak/memleak.c:669-707 | in an orderly schedule, with nothing filtered, the row of a stack shows, modulo 2^64, the total size and the number of the held blocks charged to a request from that stack, and every held block is in such a row |
| `HeapReport.OrderlyBatchEqualsIncremental` | hub/memleak/memleak.c:669-703 | in an orderly schedule the report row of a counted stack equals its incremental counter |
| `Growth.AlwaysAmortised` | hub/memleak/trace_helpers.c:54-75 | after any appends: used <= capacity, capacity at most 1024 or 4/3 of what is used, and all reallocations together copied at most four times the capacity |
| `Growth.ReserveOne` | hub/memleak/trace_helpers.c:66-75 | the reallocated array has the modelled capacity and keeps its used part |
| `CStrings.StrcmpAntisymmetric` | hub/memleak/trace_helpers.c:89-96 | strcmp is antisymmetric and zero only on equal strings |
| `CStrings.StrcmpTransitive` | hub/memleak/trace_helpers.c:89-96 | strcmp is transitive |
| `CStrings.StrcmpIsByteOrder` | hub/memleak/trace_helpers.c:89-96 | strcmp is negative if and only if the first string is a proper prefix of the second or has the smaller byte where they first differ |
| `CStrings.StoredIsRead` | hub/memleak/trace_helpers.c:77-83 | a name copied into the arena with its terminator is read back from its offset |
| `CStrings.StoredStays` | hub/memleak/trace_helpers.c:54-65 | stored names survive later growth and moves of the arena unchanged |
| `Ksyms.Table.AddSymbol` | hub/memleak/trace_helpers.c:48-87 | appends one pair; every earlier name and address stays readable, and the buffers grow as modelled |
| `Ksyms.Table.FixNames` | hub/memleak/trace_helpers.c:125-127 | after the fix-up the table, read through its pointers, is the list of added pairs in order |
| `Ksyms.Table.Load` | hub/memleak/trace_helpers.c:98-132 | after loading any input the table is a sorted permutation of it, within the amortised bounds |
| `Ksyms.Table.MapAddr` | hub/memleak/trace_helpers.c:150-170 | returns the greatest added address at or below the query and, among the names at that address, the last in byte order; NULL exactly when every address is above, the empty table included |
| `Ksyms.FloorIsLinear` | hub/memleak/trace_helpers.c:156-169 | a pair is that greatest one if and only if a linear scan over the added pairs returns it |
| `Ksyms.SymLeqIsTotal` | hub/memleak/trace_helpers.c:89-96 | the comparator is a total preorder on loaded symbols |
| `Search.FloorIndex` | hub/memleak/trace_helpers.c:153-167 | the binary search ends at the last element with key at most the query |
| `Sorting.Qsort` | hub/memleak/trace_helpers.c:129 | the contract of the library sort: sorted permutation of the prefix, the rest untouched |
| `SymTable.Table.AddSym` | hub/memleak/trace_helpers.c:407-438 | appends one symbol with offset 0; array, used part and elements copied are those of that many single appends by the capacity rule |
| `SymTable.Table.AddSyms` | hub/memleak/trace_helpers.c:449-483 | appends exactly the symbols with a non-empty name and a non-zero value, in order |
| `SymTable.UsableInOrder` | hub/memleak/trace_helpers.c:460-475 | the symbols kept are those with a non-empty name and a non-zero value, each once and in the order of the file, with start and size as read |
| `SymTable.Table.LoadSymTable` | hub/memleak/trace_helpers.c:407-536 | the loaded table is a sorted permutation of the named symbols with non-zero value, within the amortised bounds; unknown files and perf maps load nothing |
| `SymTable.Table.Search` | hub/memleak/trace_helpers.c:635-654 | finds a symbol if and only if the last one starting at or below the offset contains it, writes offset minus start into it and changes nothing else |
| `SymTable.Table.FindSym` | hub/memleak/trace_helpers.c:616-655 | on the table loaded on first use: the symbol found has the last start at or below the offset and, among those at that start, the last name in byte order, and contains the offset; nothing is found when the last one does not contain it, and for an unknown file, a perf map and an unreadable file |
| `SymTable.CompleteIff` | hub/memleak/trace_helpers.c:649-652 | for every offset the search finds a symbol whenever some symbol contains the offset, if and only if no symbol sticks out beyond a later one that ends earlier and before the next start; ends are 64-bit sums as in the code |
| `SymTable.DisjointFindsTheOne` | hub/memleak/trace_helpers.c:638-652 | on disjoint non-empty symbols the found index is that of the containing symbol |
| `SymTable.EmptySymbolHides` | hub/memleak/trace_helpers.c:649-654 | a concrete table whose containing symbol is not found |
| `DsoMaps.Syms.AddDso` | hub/memleak/trace_helpers.c:323-371 | adding a line to the grouping of a list gives the grouping of the longer list; it fails exactly when a shared object has no .text |
| `DsoMaps.Syms.LoadMaps` | hub/memleak/trace_helpers.c:657-707 | fails exactly when an executable line with a name that has none of the eight special prefixes is a shared object without .text, and is then empty; else there is one DSO per name of such a line, with the extents of exactly those lines in order, the kind the file tells and the position of its .text |
| `DsoMaps.NamesAreThose` | hub/memleak/trace_helpers.c:329-346 | the DSO names are distinct and are exactly the names of the accepted lines |
| `DsoMaps.NamesInOrder` | hub/memleak/trace_helpers.c:329-346 | the DSOs come in the order in which their names occur first |
| `DsoMaps.RangesInOrder` | hub/memleak/trace_helpers.c:348-355 | the ranges of a DSO are the lines of its name, each exactly once and in the order of the lines |
| `DsoMaps.Syms.FindDso` | hub/memleak/trace_helpers.c:373-400 | returns the first DSO and range strictly inside of which the address lies, with its ELF offset; NULL exactly when there is none |
| `DsoMaps.LoadedLookupIff` | hub/memleak/trace_helpers.c:380-385 | after loading, a lookup finds nothing if and only if the address lies strictly between the ends of no executable line with an unspecial name |
| `DsoMaps.OffsetIs` | hub/memleak/trace_helpers.c:386-393 | the offset is one sum modulo 2^64 in shared objects and the vDSO, and the address itself elsewhere |
| `DsoMaps.GroupedSearchFailsIff` | hub/memleak/trace_helpers.c:380-385 | the grouped search fails if and only if no accepted line strictly contains the address |
| `DsoMaps.GroupedSearchIsDirect` | hub/memleak/trace_helpers.c:380-396 | on disjoint lines it finds the file and range of the one line that contains the address |
| `Elf.GetElfFuncOffset` | hub/memleak/uprobe_helpers.c:231-296 | the first function symbol of that name in the order of sections, blocks and symbols, of symbol tables and dynamic symbol tables only; in an executable or shared object translated through the first loaded executable segment around it; -1 for a missing symbol, no such segment or an unreadable header |
| `Elf.FindSymbol` | hub/memleak/uprobe_helpers.c:253-273 | the scan finds the first function symbol of the name by section, block and index among symbol tables and dynamic symbols, or there is none |
| `Elf.ThroughSegments` | hub/memleak/uprobe_helpers.c:281-291 | the translation loop takes the first loaded executable segment around the address, in unsigned 64-bit arithmetic, and gives address minus segment address plus segment offset |
| `Elf.MissingSymbolIsNowhere` | hub/memleak/uprobe_helpers.c:286 | unsigned -1 lies below no segment end, so a missing symbol stays -1 |
| `Elf.OffsetDetermined` | hub/memleak/uprobe_helpers.c:231-296 | the specification leaves one possible answer |
| `RoundTrip.DynRoundTrip` | hub/memleak/trace_helpers.c:386-390 | the runtime address of a translated function leads back to its file, and to its virtual address if and only if .text and the segment have the same delta |
| `RoundTrip.ExecRoundTrip` | hub/memleak/trace_helpers.c:391-393 | for ET_EXEC the address itself comes back |
| `RoundTrip.OffsetsCancel` | hub/memleak/trace_helpers.c:387-390 | the 64-bit modular sums cancel exactly when the deltas agree |
| `RoundTrip.LineStartNotFound` | hub/memleak/trace_helpers.c:384 | an address exactly at the start of a mapping is found by no search |
| `RoundTrip.SymbolFoundAgain` | hub/memleak/trace_helpers.c:635-652 | in the sorted table of the file the search for a function address finds that function at distance 0 |
| `RoundTrip.FunctionRoundTrip` | hub/memleak/trace_helpers.c:741-764 | name to file offset to runtime address and back: the same file, virtual address and function name, at distance 0 |
| `SymsCache.Cache.GetSyms` | hub/memleak/trace_helpers.c:799-817 | whole new state and answer of one request |
| `SymsCache.CacheRefinesFirstLoad` | hub/memleak/trace_helpers.c:804-816 | after any requests the cache holds for each process the result of its first load, which was its only load |
| `SymsCache.AnswerIsFirstLoad` | hub/memleak/trace_helpers.c:804-816 | each answer is the first load of the process, a failed one included; NULL when the array cannot grow for a new process |
| `SymsCache.FirstLoadWins` | hub/memleak/trace_helpers.c:804-807 | once loaded, a process is never loaded again and its answer never changes |
| `SymsCache.CacheStaysDistinct` | hub/memleak/trace_helpers.c:804-816 | the cached process ids are distinct |
| `ExecHistory.Bootstrap.HandleExec` | hub/bootstrap/bootstrap.bpf.c:36-74 | whole new state: the start time is stored (refused only for a new process in a full map) and an event goes out only without a minimum |
| `ExecHistory.Bootstrap.HandleExit` | hub/bootstrap/bootstrap.bpf.c:76-124 | whole new state: thread exits are ignored, the start time is forgotten, and the exit is reported under the stated conditions |
| `ExecHistory.StartIsLatestExec` | hub/bootstrap/bootstrap.bpf.c:45-48 | in every run a recorded start is the latest exec of the process since its last leader exit, full map or not |
| `ExecHistory.StartRecordedIff` | hub/bootstrap/bootstrap.bpf.c:93-99 | while the processes fit in the map, a start is recorded if and only if the process ran exec since its last leader exit |
| `ExecHistory.EventOrigin` | hub/bootstrap/bootstrap.bpf.c:84-121 | every event comes from one firing: an exec without a minimum, or a leader exit whose duration is counted from that latest exec, 0 if it was not recorded |
| `ExecHistory.OnlyLongExits` | hub/bootstrap/bootstrap.bpf.c:101-103 | with a minimum set, every event is an exit of at least that duration |
| `ExecHistory.ExitReportedIff` | hub/bootstrap/bootstrap.bpf.c:89-108 | exactly when an exit is reported |
| `ExecHistory.ExecReportedIff` | hub/bootstrap/bootstrap.bpf.c:50-58 | an exec adds its event if and only if no minimum is set and the ring buffer has room |
| `ExecHistory.EventsAreTold` | hub/bootstrap/bootstrap.bpf.c:36-124 | while the processes fit in the map, the events of a run are exactly those its history tells, in order and with their durations |

## Left out

- Loading and attaching the BPF programs, ring-buffer polling, signals, argument parsing, main loops: plumbing over libbpf.
- Reading ELF files and /proc (`open_elf`, `get_elf_type`, `fscanf` loops, the vDSO image): their results are inputs of the model.
- Demangling, blazesym, printing, histograms, capability probes, partitions, time strings: user interface and wrappers.
- `mmap`, `munmap` and `mremap` in the heap model: partial and overlapping ranges. Their probes are covered by the statements on operation sequences.
- Kernel tracepoints in the heap model: the tool disables them; their handlers are covered by the statements on operation sequences.
- `posix_memalign` calls that fail, as actions of the heap model: `FailedPosixMemalignSoundIff` says exactly what their exit does to the leak set.
- Races inside `+=` on the packed counters: each counter update is one atomic step.
- Changes of the map while the report walks over it: the walk is proved on a stable map.
- Failing `malloc` and `realloc` in the symbolizer, and freeing; after a failed symbol load the original keeps freed pointers, which the model does not.
- The string table of a DSO (`btf__add_str`) is not part of this model: symbol names are values.
- `struct dso` is split in two: `DsoMaps.Dso` holds name, ranges and .text position, `SymTable.Table` the symbols.
- The fixed frame buffers of `size_info`, `alloc_info` and the report row are sequences of at most eight frames; `CaptureFrames` fills the actual buffer.
- Task names, file names and the unset fields of submitted lifetime events.
- Tracker.Memleak.LookupOrTryInit: only the run of one CPU alone; the interleaved protocol is in `InitOnce`.
- Ksyms.Table.Load: requires that no `int` capacity overflows, because the C code has no defined behaviour then.
- SymTable.Table.LoadSymTable: the symbol count of a file is a mathematical integer; the C `int` it is kept in overflows beyond 2^29 symbols, which is not modelled.
- Report.Printer.Collect: requires a stable map that fits the array, as the equal constants of map and array guarantee.
