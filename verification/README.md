# A Dafny model of the garbage collector and of the symbol hash table

The repository builds a conservative mark-sweep collector into `src/common/gc` and
backs its assembler's symbol table with the open-addressing table in
`src/common/hash.c`.  This project models both and proves what they are for.  The
configuration is a 64-bit build with one mark bit per granule, without memory
unmapping and without CHERI.  `dafny verify dfyconfig.toml` checks everything.

Code that updates state in place is modelled by classes and methods with the same
branches and loops, each proved against a specification; code in which several
threads interleave is a transition system with one step for each access that another
thread can observe.

## What is proved

**Marking** (`MarkHeap`, `MarkSteps`, `MarkPhase`). `Marker.MarkSome` is `GC_mark_some`
with all six states, the bounded mark stack that throws entries away when it is full,
and the heap scan that recovers from it. `Marker.FullMark` states the theorem: repeated
calls terminate, and from cleared marks exactly the objects reachable from the roots and
from marked uncollectable objects end up marked, whatever overflowed on the way.
`Marker.PartialMark` is the same for an incremental cycle that starts from dirty pages.
The only way out is the abort of `GC_push_all`, which needs more than half an initial
mark stack of static root ranges, or a quarter less two in an incremental cycle, where
`GC_push_selected` pushes one entry per changed page until the stack is nearly full.
Termination is the `decreases` clause of `Marker.Complete`: unmarked objects, then
state, then blocks left to scan, then words on the stack. The mark stack is never
assumed to grow, but it is doubled, if there is memory, exactly when the source tries to.
Nothing is followed beyond the words of a descriptor but in blocks whose marks are read
a word of mark bits at a time.

**Parallel marking** (`ParallelMark`, `ParallelFinish`).  Workers steal entries from the shared stack, race
on mark bits, split large ranges, and return what they cannot finish.  For every
interleaving: no work is lost; when a worker leaves `GC_mark_local`, no work exists
anywhere, and either the marks are declared invalid or everything reachable is marked;
when `GC_do_parallel_mark` returns, no helper runs or can start; and the condition
variable never leaves everybody asleep.  The marks are declared invalid if and only if
some step gave up entries: returned more than fits, or pushed on a full local stack
(`ValidIff`).  And from every state of every run marking can be brought to its end
(`CanFinish`).  `RootsPushedStarts` and `ParallelMarkResult`
connect it with the invariant of the sequential state machine at both ends.

**Stopping the world** (`StopWorld`, `StaleSignal`, `StopProgress`).  Any number of stops and starts, any
loss of suspend signals and any schedule of resends: a stop ends with every thread that
takes part held in the handler with its stack pointer saved for this very stop, one post
taken for each, and the semaphore back to 0; the correction for lost threads never
fires.  This needs one condition, and the condition is exact: with resending enabled, a
stop is safe whatever happens during it *if and only if* no suspend signal of an earlier
stop is still pending when it begins (`StopIsSafeIff`).  A resent signal that arrives
while its thread is already in the handler stays pending until the restart; if it is
delivered during the next stop before `GC_suspend_all` reaches that thread, the post
it causes is counted for some other thread's signal (`StaleSignalArises` exhibits the run).
Without resending no such state can be reached, and every stop is safe.
`StopProgress` is about getting done: with resending, every state of a stop or start can be
led to its end; without, exactly those in which no signal already sent has been lost.
A restarted thread gets out of the handler by its own steps.

**The block allocator** (`BlackList`, `Tiling`, `FreeLists`, `BlockAlloc`, `HeaderIndex`).
Every operation keeps the headers tiling the heap, each free block on the list for its
size, the counters exact and adjacent free blocks merged.  The search of the free lists
finds a block whenever one fits (`NullMeansNoFit`), at the lowest position that the black
lists allow, in the lowest list that has one and in the first block of it that the search
does not pass over (`Alloc`, `FindBlock`).  `NoBlocksLost` is the conservation law, `Canonical` says that a coalesced
tiling is determined by its blocks in use, and from it follow that freeing undoes
allocating exactly and that the order of two frees does not matter.  `HeaderIndex` proves
the walks over the two-level index to be the walks over that map.

**Sweeping, free lists and sizes** (`ObjectLists`, `BuildFl`, `Sweep`, `SizeMap`).  Sweeping a
block puts each unmarked object in front of the old list once and touches no marked one;
the lazy sweep conserves what is free or still to be swept; the unrolled free-list
builders leave the same memory as the general loop, word for word; filled size-map
entries hold the request, are not much bigger, waste no block space, and form sections as
long as the source says.  Blocks left unswept have fewer than an eighth of their objects
unmarked.

**Finalization** (`ChainTable`, `FinalMarks`, `FinalOverflow`, `Finalize`).  What a collection
queues should be the registered objects still unmarked after marking from all the
unmarked ones.  Marking for finalization uses the bounded mark stack and, unlike a mark
phase, does not recover when it overflows.  `MarksExactIff` states exactly when the marks
are those asked for: if and only if no entry thrown away still leads to an unmarked
object; and nothing is thrown away when fewer unmarked pointer-containing objects have to
be marked than the stack has entries, which can be checked beforehand.  Then the result
does not depend on the hash order and never queues an object that another queued one
reaches through its own mark procedure.  `OverflowQueuesReachable` exhibits a heap in which
it does.  No registration is ever lost or doubled.

**Root exclusions and range scanning** (`Exclusions`, `RangeScan`).  The ranges pushed are
ordered, disjoint and exactly the complement of the exclusions.  A range on the mark
stack, however it is split, has every aligned plausible slot considered and nothing else.

**The hash table** (`HashTable`).  Insertions and lookups refine the map in which the first
binding of a key wins, across every rehash, for any hash function; every probe ends.
After a removal, another key is still found if and only if its probe does not pass over
the freed bucket (`RemovalHides`).

## Where the code and its documentation differ

- `src/common/gc/include/gc/gc_mark.h:98` asks that a length descriptor be a multiple of 4.  With 8-byte
  alignment that is not enough: the search for the last pointer steps down from the end of the
  range, so a length that is 4 more than a multiple of 8 makes it miss aligned slots.
  `RangeScan.RangeExactIff` gives the exact condition, for split ranges too.
- `src/common/gc/finalize.c:620-621` says that mark stack overflow in a mark procedure is handled by the
  caller.  `GC_mark_fo` does not handle it, and neither does `GC_finalize`, which, unlike the code for
  toggle references and `GC_enqueue_all_finalizers`, does not complete the collection afterwards.
- `GC_push_selected` (`src/common/gc/mark.c:1423-1464`) compares the number of entries less one as an
  unsigned word, so it takes an empty mark stack for a nearly full one and pushes the whole rest of the
  range from the first changed page on.  That costs time only, and the model does the same.
- The comment at `src/common/gc/pthread_stop_world.c:1289-1293` records a race of the restart
  signal with user signals.  The pending suspend signal described above is a different one, in
  the suspend half, and no comment mentions it.
- The header of `src/common/hash.c` describes deleted buckets as reusable and says that the table is
  resized when 3/4 full.  Lookups stop at the first deleted bucket, `find_slot` decrements the count of
  deleted buckets on every visit, also by a lookup, and the threshold is `count * 1.75 >= cap`, which
  is 4/7.
- `GC_hblk_fl_from_blocks` puts sizes 32 to 39 on one list, so "only one size on the lists below the
  threshold" holds strictly below list 32, as `FreeLists.BinsOrdered` states it.

## Model

Paths are relative to the repository.

| member | source | states |
|---|---|---|
| `MarkHeap.FirstBlock` | src/common/gc/headers.c:367-401 | Where a heap scan goes on: no block before the result starts at or after the address |
| `MarkHeap.LiveSetClosed` | src/common/gc/mark.c:654-946 | The objects reachable from the roots and from given objects are closed under following every word that may be scanned: the upper bound on what marking may mark |
| `MarkHeap.ClosureContainsReach` | src/common/gc/mark.c:654-946 | Marks with nothing left to follow contain every object at the end of any chain of references: the lower bound |
| `MarkHeap.FullDescriptorsReach` | src/common/gc/mark.c:1767-1911 | When the descriptors of blocks with one, two or four granules an object are zero or cover the whole object, following descriptors and following what may be scanned at all reach the same objects |
| `MarkSteps.AdvanceTransitive` | src/common/gc/mark.c:654-946 | Marking steps compose: a word accounted for before the first is accounted for after the second, if only by an entry that was thrown away |
| `MarkSteps.PushedAdvances` | src/common/gc/mark.c:619-637 | Marking and pushing an object loses nothing but the entries it throws away, and throws entries away only together with setting MS_INVALID |
| `MarkSteps.PushedIsFrugal` | src/common/gc/mark.c:619-637 | No entry is thrown away before more pointer-containing objects have been marked than the stack has room for |
| `MarkSteps.ScanNothing` | src/common/gc/mark.c:855-942 | Words that refer to nothing change nothing, so leaving out those after the deferred word, and handling that one last, makes no difference |
| `MarkSteps.ScanFollows` | src/common/gc/mark.c:812-942 | After a range is scanned, what its words refer to is marked, whether or not the stack overflowed on the way |
| `MarkSteps.PopFollows` | src/common/gc/mark.c:680-731 | Taking an entry off the stack accounts for all its words; unless something gets marked the scanning work strictly falls |
| `MarkSteps.DrainedFollows` | src/common/gc/mark.c:654-946 | So does popping until the stack is empty, which terminates |
| `MarkPhase.AdvanceKeepsInv` | src/common/gc/mark.c:386-512 | Marking from the stack keeps the invariant of every state of GC_mark_some |
| `MarkPhase.ScanKeepsInv` | src/common/gc/mark.c:386-512 | Moving GC_scan_ptr past blocks whose marked objects have been looked at keeps the invariant |
| `MarkPhase.RootsCompleteInv` | src/common/gc/mark.c:342-352 | When a scan ends and the roots are pushed, the state is MS_ROOTS_PUSHED with nothing exempt any more, or MS_INVALID |
| `MarkPhase.Marker.PushEntry` | src/common/gc/mark.c:619-637 | A full stack loses exactly its top eighth of the initial size and the state becomes MS_INVALID; otherwise the entry is on top and nothing else changes |
| `MarkPhase.Marker.PushContents` | src/common/gc/include/private/gc_pmark.h:201-292 | Exactly the object the word refers to is marked and pushed, if it was unmarked |
| `MarkPhase.Marker.FindDeferred` | src/common/gc/mark.c:855-905 | The word found is plausible and no word after it in the range refers to an object |
| `MarkPhase.Marker.ScanRange` | src/common/gc/mark.c:812-942 | In spite of the pre-scan and the word handled last, the effect is that of considering the words one after the other |
| `MarkPhase.Marker.PopAndScan` | src/common/gc/mark.c:680-731 | The effect is that of the popping step, for whole entries and for the first parts of large ones |
| `MarkPhase.Marker.MarkOne` | src/common/gc/mark.c:680-942 | One iteration makes progress, loses nothing but what is thrown away, and does not change where marking will end |
| `MarkPhase.Marker.MarkFrom` | src/common/gc/mark.c:654-946 | Marking goes on exactly until the stack is empty or more than a heap block has been scanned; it loses nothing but what is thrown away, makes progress whenever the stack was not empty, and does not change what draining the stack will lead to |
| `MarkPhase.Marker.PushObj` | src/common/gc/include/private/gc_pmark.h:100-111 | A marked object has the words of its descriptor settled once it is pushed, at the cost of one entry, and no other word is pushed |
| `MarkPhase.Marker.PushMarkedAccelerated` | src/common/gc/mark.c:1767-1911 | Reading mark words 64 granules at a time misses no object of the block that was marked at the start |
| `MarkPhase.Marker.PushMarked` | src/common/gc/mark.c:1917-1966 | Every marked object of the block has its words settled unless the state is MS_INVALID; GC_objects_are_marked stays FALSE only when nothing changed |
| `MarkPhase.Marker.PushNextMarked` | src/common/gc/mark.c:2031-2049 | All marked objects between the old and the new scan position have been looked at; the new position is the end of the first block left, and NULL exactly when there is none |
| `MarkPhase.Marker.PushNextMarkedDirty` | src/common/gc/mark.c:2053-2094 | The same for blocks with a dirty page: the scan goes on after the first of them and touches no other |
| `MarkPhase.Marker.PushNextMarkedUncollectable` | src/common/gc/mark.c:2099-2130 | The same for uncollectable blocks |
| `MarkPhase.Marker.PushAll` | src/common/gc/mark.c:1356-1377 | The whole range is settled, or the stack was full and the source aborts |
| `MarkPhase.Marker.PushSelected` | src/common/gc/mark.c:1423-1464 | Every word of a page that may have changed is accounted for, and no other word is pushed, but that the whole rest is once the stack is nearly full; with this fallback there are at most three quarters of the stack and three entries afterwards, or one more than before |
| `MarkPhase.Marker.PushConditionalStatic` | src/common/gc/mark.c:1496-1511 | The whole range, or its changed pages, are accounted for, depending on what is asked for and on whether static roots are tracked |
| `MarkPhase.Marker.PushAllEager` | src/common/gc/mark.c:1653-1683 | Every word of the stack section is settled unless the state is MS_INVALID |
| `MarkPhase.Marker.PushStaticRoots` | src/common/gc/mark_rts.c:896-976 | All static root ranges, or all their changed pages, are accounted for; it can abort only when there are more ranges than the stack has room for beyond what the fallback leaves |
| `MarkPhase.Marker.PushStackRoots` | src/common/gc/mark.c:1685-1702 | All thread stack sections are settled, and this never aborts |
| `MarkPhase.Marker.PushRootsAndAdvance` | src/common/gc/mark.c:342-352 | Nothing happens while a scan goes on; afterwards all roots are settled in MS_ROOTS_PUSHED |
| `MarkPhase.Marker.AllocMarkStack` | src/common/gc/mark.c:1295-1345 | The stack gets the new size if there is memory, and silently keeps the old one if not |
| `MarkPhase.Marker.StepRescuers` | src/common/gc/mark.c:398-418 | MS_PUSH_RESCUERS keeps the invariant and makes progress: exactly when the stack has less room than half its initial size it marks, and remembers that it is too small, and otherwise it goes on to the next dirty block |
| `MarkPhase.Marker.StepUncollectable` | src/common/gc/mark.c:420-436 | MS_PUSH_UNCOLLECTABLE keeps the invariant and makes progress: exactly when the stack is a quarter full it marks, and otherwise it goes on to the next uncollectable block |
| `MarkPhase.Marker.StepRootsPushed` | src/common/gc/mark.c:438-481 | MS_ROOTS_PUSHED keeps the invariant, and ends the phase only with an empty stack and everything settled |
| `MarkPhase.Marker.StepInvalid` | src/common/gc/mark.c:483-506 | MS_INVALID and MS_PARTIALLY_INVALID keep the invariant and make progress: recovery from an overflow |
| `MarkPhase.Marker.MarkSome` | src/common/gc/mark.c:386-512 | Every call keeps the phase invariant, only adds marks, and either ends the phase or strictly decreases the measure; the stack is doubled exactly when it is empty after an overflow, at the start of a heap scan or the end of a phase, and there is memory |
| `MarkPhase.Marker.Complete` | src/common/gc/finalize.c:306-312 | Repeated calls terminate, and everything reachable is marked and nothing else, across overflows |
| `MarkPhase.Marker.EverythingScanned` | src/common/gc/mark.c:438-481 | In MS_NONE every child of a marked object and every object a root refers to is marked |
| `MarkPhase.Marker.constructor` | src/common/gc/mark.c:1347-1350 | A fresh marker is in MS_NONE with an empty stack of the initial size |
| `MarkPhase.Marker.ClearMarks` | src/common/gc/mark.c:288-297 | Exactly the marks of uncollectable objects remain, and the phase invariant holds in MS_INVALID |
| `MarkPhase.Marker.InitiatePartial` | src/common/gc/mark.c:301-324 | The invariant holds in MS_PUSH_RESCUERS when only dirty blocks and dirty roots may refer to unmarked objects |
| `MarkPhase.Marker.FullMark` | src/common/gc/mark.c:386-512 | From cleared marks a completed phase has marked everything reachable along descriptors, and nothing but what is reachable along descriptors or, in blocks with one, two or four granules an object, along whole objects; with full descriptors exactly that |
| `MarkPhase.Marker.PartialMark` | src/common/gc/mark.c:386-512 | An incremental cycle keeps all old marks and adds everything newly reachable along descriptors, and nothing but what is reachable in the same sense |
| `ParallelMark.NotifyAll` | src/common/gc/mark.c:1048-1076 | Notification wakes exactly the sleeping workers |
| `ParallelMark.TakeTopCovers` | src/common/gc/mark.c:684-731 | Halving or cutting an entry neither loses nor adds a word |
| `ParallelMark.PushLocalCovers` | src/common/gc/mark.c:619-637 | A push that does not overflow keeps every word and adds the object's |
| `ParallelMark.StealGood` | src/common/gc/mark.c:1014-1045 | A thief that reads a descriptor and zeroes it in two steps keeps the stack's shape, also when another thief has the same entry |
| `ParallelMark.StealKeepsWork` | src/common/gc/mark.c:1014-1045 | Every stolen word is on the shared stack or with a thief at each moment; two thieves may both have it |
| `ParallelMark.SeekGood` | src/common/gc/mark.c:1155-1170 | Advancing GC_first_nonempty by compare-and-swap passes only stolen entries |
| `ParallelMark.ShareKeepsWork` | src/common/gc/mark.c:1048-1131 | Returning part or all of a local stack loses nothing unless the marks are declared invalid |
| `ParallelMark.StepGood` | src/common/gc/mark.c:1014-1232 | Any step of any worker keeps its own shape and the lock discipline and hands on all work |
| `ParallelMark.CommitShape` | src/common/gc/mark.c:1014-1232 | And it keeps the shape of all other workers |
| `ParallelMark.CommitKeepsWork` | src/common/gc/mark.c:1014-1232 | And no work is lost in the whole state |
| `ParallelMark.CommitCounted` | src/common/gc/mark.c:1142-1232 | GC_active_count and GC_helper_count always equal the numbers of active and joined workers |
| `ParallelMark.CommitWakeup` | src/common/gc/mark.c:1142-1232 | Nobody sleeps without either a reason that persists or a notification on its way |
| `ParallelMark.CommitQuiescence` | src/common/gc/mark.c:1187-1208 | Once a worker has left, nothing is left with anybody and this stays so |
| `ParallelMark.InitInv` | src/common/gc/mark.c:1237-1263 | The published state satisfies the invariant |
| `ParallelMark.NextInv` | src/common/gc/mark.c:1014-1289 | Every step of every worker keeps the invariant |
| `ParallelMark.RunInv` | src/common/gc/mark.c:1014-1289 | The invariant holds after every run |
| `ParallelMark.EnabledMeansCanStep` | src/common/gc/mark.c:1014-1289 | At the end of any run a step is possible exactly when the program of its worker enables it: the invariants exclude no interleaving |
| `ParallelMark.StepValid` | src/common/gc/mark.c:1048-1076 | A step spoils the marks exactly when it returns more entries than fit or pushes an object on a full local stack; entries that fit are put on top in order, and nothing else gets on the shared stack; the stack is called too small exactly when a return does not fit |
| `ParallelMark.NextValid` | src/common/gc/mark.c:1014-1131 | The same for the whole state |
| `ParallelMark.ValidIff` | src/common/gc/mark.c:1014-1131 | At the end of a run the marks are valid if and only if they were at the start and no step on the way gave up entries |
| `ParallelMark.StepFits` | src/common/gc/mark.c:1014-1045 | A thief takes few enough entries, and marking and halving look at the limit, so no local stack gets longer than LOCAL_MARK_STACK_SIZE |
| `ParallelMark.NoOverrun` | src/common/gc/mark.c:1014-1131 | If the published mark stack is no longer than its array, then in no state of any run does it or a local stack run over |
| `ParallelMark.LeavingMeansDone` | src/common/gc/mark.c:1142-1232 | In every interleaving, when some worker has left, no work exists anywhere, and either the marks are invalid or everything reachable from the marked objects and the roots is marked; nothing dead is marked |
| `ParallelMark.ReturnMeansNoHelpers` | src/common/gc/mark.c:1237-1263 | When GC_do_parallel_mark returns, no helper is running, none can start, and the shared stack is used up |
| `ParallelMark.NoDeadlock` | src/common/gc/mark.c:1142-1263 | As long as somebody takes part, somebody can go on without a spurious wake-up |
| `ParallelMark.RootsPushedStarts` | src/common/gc/mark.c:438-458 | The invariant of MS_ROOTS_PUSHED is what a parallel mark may start from |
| `ParallelMark.ParallelMarkResult` | src/common/gc/mark.c:1237-1263 | Its end satisfies the invariant of MS_NONE, or of MS_INVALID if something overflowed |
| `ParallelFinish.TakeTopLess` | src/common/gc/mark.c:684-731 | Splitting or halving an entry leaves less to do, whatever the overlapping word adds |
| `ParallelFinish.SoloLower` | src/common/gc/mark.c:1142-1208 | Every step of a worker that runs alone is progress: marks, sharing, scanning, what it has seen of the stack, or its place in the program |
| `ParallelFinish.Solo` | src/common/gc/mark.c:1142-1208 | Left alone, a worker gets through all work it finds and comes to the test for leaving with the shared stack used up |
| `ParallelFinish.OneLess` | src/common/gc/mark.c:1187-1232 | With the stack used up, one more worker can go to sleep or leave |
| `ParallelFinish.CanFinish` | src/common/gc/mark.c:1142-1263 | Every run, wherever it has got to, can be continued until no worker takes part |
| `StopWorld.ThreadStepInv` | src/common/gc/pthread_stop_world.c:308-414 | A thread posts exactly when it acknowledges the present count, once; its acknowledgement is never taken back |
| `StopWorld.ByThreadInv` | src/common/gc/pthread_stop_world.c:308-414 | Any handler step keeps the global invariant, in the middle of any scan or wait |
| `StopWorld.FirstScanInv` | src/common/gc/pthread_stop_world.c:926-1033 | The first scan of GC_suspend_all or GC_restart_all counts exactly the members it has passed |
| `StopWorld.SkippedHasAcked` | src/common/gc/pthread_stop_world.c:945-948 | A thread that a resend skips because of last_stop_count has posted already |
| `StopWorld.RescanInv` | src/common/gc/pthread_stop_world.c:926-1033 | A resend sends to at least all members that have not acknowledged |
| `StopWorld.NoThreadIsLost` | src/common/gc/pthread_stop_world.c:452-472 | The correction for lost threads never applies |
| `StopWorld.WaitStepInv` | src/common/gc/pthread_stop_world.c:416-511 | Waits taken and waits to go always add up to the number of members |
| `StopWorld.BeginStopInv` | src/common/gc/pthread_stop_world.c:1035-1082 | A stop begins in a good state when no old suspend signal is pending |
| `StopWorld.BeginStartInv` | src/common/gc/pthread_stop_world.c:1322-1352 | Restarting from a stopped world always does |
| `StopWorld.StoppedIsSafe` | src/common/gc/pthread_stop_world.c:1035-1092 | When GC_stop_world returns, every member has saved its stack pointer for this count and is in the handler, one post was taken for each, and the semaphore is 0 |
| `StopWorld.StepInv` | src/common/gc/pthread_stop_world.c:308-1366 | Every step of the system keeps the invariant, unless a stop begins with an old signal pending |
| `StopWorld.RunInv` | src/common/gc/pthread_stop_world.c:308-1450 | The invariant holds throughout every clean run of stops and starts from GC_stop_init |
| `StopWorld.StopsAreSafe` | src/common/gc/pthread_stop_world.c:308-1366 | In every clean run every stop is safe, no thread is taken for lost, and the semaphore is 0 between stops |
| `StopWorld.StepSentOnce` | src/common/gc/pthread_stop_world.c:926-1033 | Without resending, a pending signal belongs to the stop in progress |
| `StopWorld.NoRetryRunClean` | src/common/gc/pthread_stop_world.c:926-1082 | Without resending every run is clean |
| `StopWorld.NoRetryStopsAreSafe` | src/common/gc/pthread_stop_world.c:1035-1092 | Without resending every stop of every run is safe |
| `StaleSignal.NothingPendingIsSafe` | src/common/gc/pthread_stop_world.c:1035-1092 | From a good state without pending signals, every way to complete the stop is safe |
| `StaleSignal.StaleSignalBreaksStop` | src/common/gc/pthread_stop_world.c:308-388 | From any good state with an old suspend signal pending, the stop can end unsafely; if some member has none pending, with a member still running |
| `StaleSignal.StopIsSafeIff` | src/common/gc/pthread_stop_world.c:1035-1082 | With resending, a stop is safe whatever happens if and only if no old suspend signal is pending when it begins |
| `StaleSignal.StaleSignalArises` | src/common/gc/pthread_stop_world.c:437-511 | A state from which the next stop is not safe can be reached from initialization |
| `StopProgress.Resumes` | src/common/gc/pthread_stop_world.c:348-413 | Once the world runs again, each thread gets out of the handler by its own steps alone, which change no other thread and post nothing |
| `StopProgress.RunCovered` | src/common/gc/pthread_stop_world.c:416-511 | In every clean run with resending the last waits have enough posts, and whoever has not acknowledged a restart is on its way to it |
| `StopProgress.Progress` | src/common/gc/pthread_stop_world.c:926-1092 | From every state of a stop or start some step of a thread or of the stopping thread leads closer to its end |
| `StopProgress.CanComplete` | src/common/gc/pthread_stop_world.c:1035-1092 | And so to its end |
| `StopProgress.RetryCompletes` | src/common/gc/pthread_stop_world.c:437-511 | With resending every state of a stop or start of a clean run can be completed, whatever has been lost, until RESEND_SIGNALS_LIMIT is about to be reached |
| `StopProgress.GivesUp` | src/common/gc/pthread_stop_world.c:452-464 | Resending is given up exactly when 150 resends in a row have sent the same number of signals |
| `StopProgress.CompletesIff` | src/common/gc/pthread_stop_world.c:926-1092 | Without resending a state of a stop or start can be completed if and only if no suspend signal already sent to a member has been lost |
| `StopProgress.LostForGood` | src/common/gc/pthread_stop_world.c:926-1092 | A member whose signal is lost never acknowledges, so that stop never ends |
| `StopProgress.NoDeadlock` | src/common/gc/pthread_stop_world.c:926-1352 | While a stop or start is under way and no signal is lost for good, some step changes the state |
| `BlackList.ZeroWords` | src/common/gc/blacklst.c:243-269 | A zero word in both tables clears every block up to the end of the word |
| `BlackList.IsBlackListed` | src/common/gc/blacklst.c:238-269 | NULL exactly when no block of the range is black-listed; otherwise the result is a later start before which every start is black-listed too |
| `BlackList.AlignPad` | src/common/gc/allchblk.c:756-757 | The least padding that aligns the address |
| `BlackList.AlignDown` | src/common/gc/allchblk.c:781-801 | The last aligned address not after the given one |
| `BlackList.FindNonBl` | src/common/gc/allchblk.c:781-801 | The least aligned start that fits and avoids the black lists, and NULL exactly when there is none |
| `Tiling.CountStep` | src/common/gc/headers.c:289-310 | Following a forwarding count from inside a block in use goes strictly back and stays inside the block |
| `Tiling.BlocksIsLeast` | src/common/gc/include/private/gc_priv.h:1184 | OBJ_SZ_TO_BLOCKS is the least number of heap blocks that hold the bytes |
| `Tiling.SplitTiles` | src/common/gc/allchblk.c:663-692 | Cutting a free block in two keeps the heap tiled |
| `Tiling.TakeTiles` | src/common/gc/headers.c:289-310 | Putting a free block to use, with its counts, keeps the heap tiled |
| `Tiling.ReleaseTiles` | src/common/gc/headers.c:320-338 | Clearing the counts of a block made free keeps the heap tiled |
| `Tiling.MergeTiles` | src/common/gc/allchblk.c:1080-1123 | Joining adjacent free blocks keeps the heap tiled |
| `Tiling.SectionTiles` | src/common/gc/alloc.c:1478-1518 | A new section extends the tiling by exactly its blocks |
| `Tiling.DropTiles` | src/common/gc/allchblk.c:813-833 | Dropping a black-listed block in chunks keeps the heap tiled |
| `Tiling.CarvedTiles` | src/common/gc/allchblk.c:968-1035 | Allocating from the middle of a free block keeps the heap tiled |
| `Tiling.CarvedBlocks` | src/common/gc/allchblk.c:968-1035 | The blocks afterwards are the new one, what remains before and after it, and all the others unchanged |
| `Tiling.ReleaseCoalesced` | src/common/gc/allchblk.c:1054-1079 | After a release only the released block can have a free neighbour |
| `Tiling.MergeRightCoalesced` | src/common/gc/allchblk.c:1080-1104 | After the join to the right no free block follows |
| `Tiling.MergeLeftCoalesced` | src/common/gc/allchblk.c:1105-1123 | After the join to the left no two free blocks are adjacent |
| `Tiling.CarvedCoalesced` | src/common/gc/allchblk.c:968-1035 | Allocation creates no adjacent free blocks, although it can leave one on either side |
| `Tiling.Canonical` | src/common/gc/allchblk.c:1054-1124 | Two coalesced tilings of a heap that agree on the blocks in use are the same map, free blocks and counts included |
| `Tiling.SumIsCard` | src/common/gc/reclaim.c:625-639 | The sizes of distinct blocks add up to the number of heap blocks they cover |
| `FreeLists.BinsOrdered` | src/common/gc/allchblk.c:92-99 | Larger blocks are never on lower lists, and lists below 32 hold one size each |
| `FreeLists.BinsExact` | src/common/gc/allchblk.c:92-99 | Each list below 32 holds one size, each of the others eight in a row, and the last one all sizes from 256 blocks on |
| `FreeLists.UnlinkOk` | src/common/gc/allchblk.c:322-344 | Taking a block off its list keeps all lists doubly linked and all counters exact |
| `FreeLists.PushOk` | src/common/gc/allchblk.c:390-420 | So does putting one on |
| `FreeLists.SetHeaderPush` | src/common/gc/allchblk.c:390-420 | Also when its header is set up at the same time |
| `FreeLists.ReplaceOk` | src/common/gc/allchblk.c:663-692 | And so does the exchange made by GC_split_block |
| `FreeLists.Neighbours` | src/common/gc/allchblk.c:322-344 | The link fields of the k-th block are exactly its neighbours on the list |
| `FreeLists.CountersExact` | src/common/gc/allchblk.c:101-126 | The counters of all lists add up to the number of free heap blocks |
| `BlockAlloc.Allocator.constructor` | src/common/gc/allchblk.c:92-126 | The empty heap satisfies the allocator's invariant |
| `BlockAlloc.Allocator.RemoveFromFlAt` | src/common/gc/allchblk.c:322-344 | The block leaves its list and no other; the total falls by its size |
| `BlockAlloc.Allocator.AddToFl` | src/common/gc/allchblk.c:390-420 | The block is at the front of the list for its size; the total grows by it |
| `BlockAlloc.Allocator.FindStartingHblk` | src/common/gc/include/private/gc_priv.h:3025-3036 | Following counts ends at the start of the block that covers the address |
| `BlockAlloc.Allocator.PrevBlock` | src/common/gc/headers.c:403-436 | The last block starting at or before the address, or none |
| `BlockAlloc.Allocator.FreeBlockEndingAt` | src/common/gc/allchblk.c:354-386 | The free block that ends at the address, and NULL exactly when none does |
| `BlockAlloc.Allocator.ReplaceOnList` | src/common/gc/allchblk.c:663-692 | The back part takes the place of the whole block on its list |
| `BlockAlloc.Allocator.SplitBlock` | src/common/gc/allchblk.c:663-692 | The headers are those of the cut block, and the front is on the list for its size |
| `BlockAlloc.Allocator.GetFirstPart` | src/common/gc/allchblk.c:621-651 | The front part is on no list and the rest on the list for its size; no byte is lost |
| `BlockAlloc.Allocator.InstallCounts` | src/common/gc/headers.c:289-310 | The entries inside the block become capped distances to its start and no other entry changes |
| `BlockAlloc.Allocator.CutOut` | src/common/gc/allchblk.c:968-1000 | What remains on either side is on the right lists |
| `BlockAlloc.Allocator.TakeFrom` | src/common/gc/allchblk.c:968-1035 | The result is the block carved out of the free one; the invariant holds and the free bytes fall by its size |
| `BlockAlloc.Allocator.DropInChunks` | src/common/gc/allchblk.c:813-833 | A dropped block becomes single blocks in use, off the lists, and the invariant holds |
| `BlockAlloc.Allocator.NextFitsBetter` | src/common/gc/allchblk.c:759-779 | TRUE exactly when the next block is smaller, large enough with padding, and clean at its first aligned start |
| `BlockAlloc.BetterIsPlaceable` | src/common/gc/allchblk.c:759-779 | A block that is preferred can serve the request, so skipping to it loses nothing |
| `BlockAlloc.Allocator.Decide` | src/common/gc/allchblk.c:880-960 | A block is skipped only if it cannot serve the request or the next one can; of the blocks that only the black lists rule out each fourth is dropped; the position chosen is the least clean one, and a black-listed one only for a large request in a large block |
| `BlockAlloc.Allocator.DropAndGoOn` | src/common/gc/allchblk.c:930-960 | The search goes on at the right place of the shortened list |
| `BlockAlloc.Allocator.Consider` | src/common/gc/allchblk.c:867-966 | The search either ends at this block, or goes on after it, passed over or dropped for a reason |
| `BlockAlloc.Allocator.FindBlock` | src/common/gc/allchblk.c:861-966 | The block found is the first of those not dropped that is large enough, without a better-fitting next one, and not black-listed throughout (or punted on) |
| `BlockAlloc.NoneCan` | src/common/gc/allchblk.c:867-966 | If the search passes over a whole list, no block of it can serve the request: leaving a block for the next one loses nothing |
| `BlockAlloc.BlackListsAvoided` | src/common/gc/allchblk.c:904-966 | A block that may hold pointers, or is pointer-free and large, is never put where the black lists forbid, unless both request and spare room exceed the limit and no clean position exists |
| `BlockAlloc.Allocator.AllocNth` | src/common/gc/allchblk.c:867-1036 | NULL means that no block on the list could serve the request; otherwise the result is carved out of the first block of the list that the search does not pass over, at the position the black lists call for; nothing changes besides but that black-listed blocks are dropped |
| `BlockAlloc.Allocator.EnoughLargeLeft` | src/common/gc/allchblk.c:77-89 | The highest list from which on the free bytes bring the large allocation to its maximum |
| `BlockAlloc.Allocator.SplitLimit` | src/common/gc/allchblk.c:717-739 | All lists may be split while the heap is not in full use or no collection is due, none when finalizers freed too much, and otherwise as many as leave enough for large requests |
| `BlockAlloc.Allocator.Alloc` | src/common/gc/allchblk.c:700-754 | The invariant holds; NULL means that no free block on the lists that may be split can serve the request, although the exact-size list is searched first and only once; which lists may be split is what the counters say after the exact search; a block that has to be split is taken from the lowest list that has one, after the list of exact matches |
| `BlockAlloc.NothingBlack` | src/common/gc/allchblk.c:880-960 | With nothing black-listed a block can serve a request exactly when it is as large as the request and its padding |
| `BlockAlloc.NullMeansNoFit` | src/common/gc/allchblk.c:700-754 | With all lists open and nothing black-listed, NULL means that no free block is as large as the request and its padding |
| `BlockAlloc.Allocator.RemoveCounts` | src/common/gc/headers.c:320-338 | Every entry inside the block is nil and no other entry changes |
| `BlockAlloc.Allocator.CoalesceRight` | src/common/gc/allchblk.c:1080-1104 | The block takes in the free block after it unless the sum has the sign bit set; lists and counters stay exact |
| `BlockAlloc.Allocator.CoalesceLeft` | src/common/gc/allchblk.c:1105-1120 | The same for the free block before it |
| `BlockAlloc.Allocator.Coalesce` | src/common/gc/allchblk.c:1080-1123 | Both joins together, with the neighbours that were there before |
| `BlockAlloc.PairFits` | src/common/gc/allchblk.c:1080-1123 | Two blocks are no larger than the heap, so below half the address space no join overflows |
| `BlockAlloc.Allocator.GiveBack` | src/common/gc/allchblk.c:1080-1124 | The invariant holds again, the blocks in use are the old ones but the freed one, and the free bytes grow by its size |
| `BlockAlloc.Allocator.FreeHblk` | src/common/gc/allchblk.c:1054-1124 | It aborts exactly for a free block and for a size with the sign bit set; otherwise as above, for blocks with or without counts |
| `BlockAlloc.Allocator.AddSection` | src/common/gc/alloc.c:1494-1520 | The heap grows by exactly the section; the blocks in use stay |
| `BlockAlloc.Allocator.AddToHeap` | src/common/gc/alloc.c:1440-1520 | The heap, its size and the free bytes grow by the usable part of the new memory, and the invariant holds |
| `BlockAlloc.Trim` | src/common/gc/alloc.c:1478-1490 | The loops leave out exactly the blocks too near address zero or the end of the address space |
| `BlockAlloc.EndsAt` | src/common/gc/allchblk.c:354-371 | The block over the last heap block before a start ends there, and no other does |
| `BlockAlloc.NoBlocksLost` | src/common/gc/reclaim.c:625-639 | Bytes of blocks in use and free bytes make up the heap size |
| `BlockAlloc.AllocThenFree` | src/common/gc/allchblk.c:968-1124 | Freeing what was just allocated gives back the very same headers |
| `BlockAlloc.FreesCommute` | src/common/gc/allchblk.c:1054-1124 | The order in which two blocks are freed does not matter |
| `HeaderIndex.InsertOk` | src/common/gc/headers.c:218-268 | A new bottom table joins the ascending and the descending list in the order of keys and adds no entry |
| `HeaderIndex.SetHolds` | src/common/gc/headers.c:270-287 | Setting a slot changes the map at that address only |
| `HeaderIndex.Index.constructor` | src/common/gc/headers.c:199-214 | A new index holds the empty map |
| `HeaderIndex.Index.GetIndex` | src/common/gc/headers.c:218-268 | Afterwards the table exists, the lists are in order, and the map is unchanged |
| `HeaderIndex.Index.SetHdr` | src/common/gc/headers.c:270-287 | The map changes at this address only |
| `HeaderIndex.Index.InstallCounts` | src/common/gc/headers.c:289-310 | A block may span any number of bottom tables; the map afterwards is that of the tiling |
| `HeaderIndex.Index.ApplyToAllBlocks` | src/common/gc/headers.c:343-365 | Exactly the blocks in use are visited, each once, also when one spans several bottom tables |
| `HeaderIndex.Index.NextInTable` | src/common/gc/headers.c:375-394 | The first block of the table that qualifies; otherwise all blocks up to the place reached may be passed over |
| `HeaderIndex.Index.NextBlock` | src/common/gc/headers.c:367-401 | The first block at or after the address, free ones only where asked for, and none only if there is none |
| `HeaderIndex.Index.PrevBlock` | src/common/gc/headers.c:403-436 | The last block at or before the address, and none only if there is none |
| `ChainTable.DeleteOk` | src/common/gc/finalize.c:940-996 | Unlinking a node removes its binding and no other |
| `ChainTable.PutOk` | src/common/gc/finalize.c:155-225 | A node in front of its chain adds its binding and no other |
| `ChainTable.ReplaceOk` | src/common/gc/finalize.c:694-836 | Changing a node in place changes its binding and no other |
| `ChainTable.ChainTable.Search` | src/common/gc/finalize.c:155-225 | The node of the key, and the end of the chain exactly when the key is not bound |
| `ChainTable.ChainTable.DeleteAt` | src/common/gc/finalize.c:940-996 | The binding goes, the count falls by one, and a walk over the chains stays where it is |
| `ChainTable.ChainTable.Put` | src/common/gc/finalize.c:155-225 | The binding is added and counted |
| `ChainTable.ChainTable.SetAt` | src/common/gc/finalize.c:694-836 | The value changes for this key only |
| `ChainTable.ChainTable.GrowIfFull` | src/common/gc/finalize.c:155-225 | There are chains afterwards and the bindings are unchanged; the number of chains doubles exactly when there were none or fewer than entries |
| `ChainTable.ChainTable.MoveChain` | src/common/gc/finalize.c:119-136 | The new table holds the bindings of the chains moved so far and no others |
| `ChainTable.ChainTable.GrowTable` | src/common/gc/finalize.c:91-143 | No binding is lost, doubled or changed by growing |
| `FinalMarks.ClosureIs` | src/common/gc/finalize.c:1022-1039 | There is a least set that holds the marks, what their words refer to, and what the mark procedures of the unmarked registered objects lead to |
| `FinalMarks.ClosureUnique` | src/common/gc/finalize.c:1022-1039 | And only one |
| `FinalMarks.IgnoreSelfFollows` | src/common/gc/finalize.c:637-659 | The ignore-self procedure marks what every word refers to but the object itself, through any overflow |
| `FinalMarks.ProcFollows` | src/common/gc/finalize.c:628-683 | Each mark procedure accounts for exactly the words it follows, with one entry or as many as objects newly marked |
| `FinalMarks.AfterFoFollows` | src/common/gc/finalize.c:296-303 | Draining the stack after a mark procedure forgets only what was thrown away, and nothing is thrown away unless as many new pointer-containing objects were marked as the stack has entries |
| `FinalMarks.MarksExactIff` | src/common/gc/finalize.c:1022-1039 | For any hash order, no object outside the closure is marked; all of the closure is marked if and only if no entry thrown away still leads to an unmarked object; and nothing is thrown away if fewer unmarked pointer-containing objects are to be marked than the stack has entries |
| `FinalOverflow.OverflowLoses` | src/common/gc/finalize.c:637-659 | For every stack size: if the ignore-self procedure meets one more unmarked pointer-containing child than the stack has entries, what only a dropped child refers to stays unmarked |
| `FinalOverflow.OverflowQueuesReachable` | src/common/gc/finalize.c:1022-1088 | A heap in which, in either hash order, two registered objects are both queued although the mark procedure of one leads to the other |
| `FinalOverflow.ExampleHolds` | src/common/gc/finalize.c:637-659 | That heap is a heap to mark in, with both objects |
| `Finalize.RunProc` | src/common/gc/finalize.c:628-683 | The mark procedures on the bounded stack do what the function says |
| `Finalize.MarkFo` | src/common/gc/finalize.c:296-303 | The method on the bounded stack does what the functions above say: the mark procedure, then draining, without recovery from an overflow |
| `Finalize.Finalizer.MarkForFinalization` | src/common/gc/finalize.c:1022-1039 | Every registration is met once, and the marks are those of marking for them one after the other |
| `Finalize.Finalizer.Enqueue` | src/common/gc/finalize.c:1040-1088 | The entries still unmarked, each once, are in front of the queue and out of the table, and their objects are marked |
| `Finalize.Finalizer.EnqueueAt` | src/common/gc/finalize.c:1047-1081 | One entry moves from table to queue, and the walk is not disturbed |
| `Finalize.Finalizer.MakeLinksDisappear` | src/common/gc/finalize.c:940-996 | Exactly the links to marked objects are kept or, when dangling links go, exactly those that lie in marked objects or in none; exactly the cells of the links to unmarked objects are cleared |
| `Finalize.Finalizer.QueueUnreachable` | src/common/gc/finalize.c:1022-1088 | The registrations left unmarked leave the table for the queue; the marks are the closure if and only if no entry thrown away still leads to an unmarked object, and they are when there are few objects to mark |
| `Finalize.Finalizer.LinksThenObjects` | src/common/gc/finalize.c:1001-1088 | Short links go by the marks before finalization marking, and exactly their cells are cleared; then as above |
| `Finalize.Finalizer.RemoveLinks` | src/common/gc/finalize.c:1134-1164 | Long links go by the marks after it, and exactly their cells are cleared; dangling ones go last, without touching their cells |
| `Finalize.Finalizer.Finalize` | src/common/gc/finalize.c:1000-1164 | All of this for a whole GC_finalize, and which link cells it clears |
| `FinalMarks.QueuedUnmarked` | src/common/gc/finalize.c:1040-1088 | The objects queued are the registered ones left unmarked, and table and queue together have as many entries as the table had |
| `FinalMarks.QueuedExactly` | src/common/gc/finalize.c:1022-1088 | All registered objects outside the closure are queued, and no others if and only if every registered object of the closure was marked |
| `FinalMarks.OrderIndependent` | src/common/gc/finalize.c:1022-1088 | If the marks end closed, any two hash orders queue the same objects and leave the same table and marks |
| `FinalMarks.OrderedAfterReferrers` | src/common/gc/finalize.c:1022-1088 | If the marks end closed, no queued object is reachable through the mark procedure of a queued object, itself included |
| `Finalize.Finalizer.RegisterFinalizer` | src/common/gc/finalize.c:694-836 | The table changes as the four cases require, and the old function and data are returned |
| `Finalize.Finalizer.RegisterLink` | src/common/gc/finalize.c:155-225 | The link is bound to the object, with GC_DUPLICATE exactly when it was bound before |
| `Finalize.Finalizer.UnregisterLink` | src/common/gc/finalize.c:241-271 | The link is gone, and the result says whether it was there |
| `Finalize.Finalizer.MoveLink` | src/common/gc/finalize.c:529-585 | The binding moves to the new link, or nothing changes and the result says why; moving onto itself succeeds |
| `HashTable.UnitSteps` | src/common/hash.c:51-81 | After a full cycle the probe advances by one slot a step |
| `HashTable.Covers` | src/common/hash.c:51-81 | So every slot is probed within two cycles, whatever the stride |
| `HashTable.EndUnique` | src/common/hash.c:51-81 | A probe ends at one slot only |
| `HashTable.NotFull` | src/common/hash.c:83-104 | A table with fewer nodes than slots has a slot that ends every probe |
| `HashTable.EndTells` | src/common/hash.c:51-81 | The slot where the probe ends says whether the key is bound, and to what |
| `HashTable.FillOk` | src/common/hash.c:135-162 | Filling the slot where the probe for a new key ended adds that binding and moves the end of no other probe |
| `HashTable.CountBindings` | src/common/hash.c:135-162 | Live slots are as many as bindings |
| `HashTable.Table.constructor` | src/common/hash.c:106-116 | A new table is valid and empty |
| `HashTable.Table.FindSlot` | src/common/hash.c:51-81 | The probe terminates at the slot where it ends; a freed bucket found is discounted even by a lookup |
| `HashTable.Table.Reinsert` | src/common/hash.c:90-100 | A node moved to the new table is bound there beside those moved before |
| `HashTable.Table.MoveNodes` | src/common/hash.c:83-104 | All nodes are moved |
| `HashTable.Table.Rehash` | src/common/hash.c:83-104 | The bindings are unchanged and there is room for one more; the capacity doubles exactly when 7 * count >= 4 * cap, and otherwise nothing changes |
| `HashTable.Table.Double` | src/common/hash.c:83-104 | The capacity doubles; bindings and count are unchanged |
| `HashTable.Table.Insert` | src/common/hash.c:135-162 | A new key is bound and 1 returned; a bound key keeps its value and 0 is returned; the capacity doubles first exactly when the table is at least 4/7 full, so that a table is never larger than needed |
| `HashTable.Table.Find` | src/common/hash.c:164-178 | Exactly the bound value, and NULL exactly for unbound keys |
| `HashTable.Table.NameExists` | src/common/hash.c:210-221 | TRUE exactly for bound keys |
| `HashTable.Table.InsertAll` | src/common/hash.c:135-162 | Any sequence of insertions leaves the map in which the first binding of each key wins |
| `HashTable.FirstWins` | src/common/hash.c:135-178 | In that map each key has the value of its first insertion, and keys never inserted have none |
| `HashTable.Table.Remove` | src/common/hash.c:180-192 | On any table, also after removals: the bucket where the probe ends is freed if it is in use, nothing else changes, and the counters follow |
| `HashTable.Table.FreeBucket` | src/common/hash.c:184-190 | Freeing a bucket changes this slot only and leaves the live count right |
| `HashTable.RemovalHides` | src/common/hash.c:51-81 | After a removal the probe for any other key, bound or not, still ends where it did if and only if it does not pass over the freed bucket |
| `HashTable.RemovalLosesAKey` | src/common/hash.c:66-69 | A table and two keys for which removing the first hides the second |
| `ObjectLists.ListNoDup` | src/common/gc/new_hblk.c:96-156 | A list that ends meets no object twice |
| `ObjectLists.LastObject` | src/common/gc/new_hblk.c:119-156 | The loops stop exactly after the last object that fits |
| `BuildFl.LinkedIsList` | src/common/gc/new_hblk.c:96-156 | Downward links make a list of the objects, last to first, followed by the old list |
| `BuildFl.BuiltIsList` | src/common/gc/new_hblk.c:96-156 | What every builder leaves is a list of each object of the block once and then the old list |
| `BuildFl.BuildersAgree` | src/common/gc/new_hblk.c:26-156 | Builders that meet the common specification leave the same memory, word for word, and the same head |
| `BuildFl.StartsAre` | src/common/gc/new_hblk.c:26-93 | For two and four words the objects start at the multiples of the size |
| `BuildFl.FilledIsBuilt` | src/common/gc/new_hblk.c:26-93 | The stride loops meet the common specification |
| `BuildFl.BuildGeneral` | src/common/gc/new_hblk.c:119-156 | The general loop meets it for every size |
| `BuildFl.BuildClear2` | src/common/gc/new_hblk.c:26-42 | So does the cleared two-word loop: all non-link words are null |
| `BuildFl.Build2` | src/common/gc/new_hblk.c:45-57 | So does the two-word loop: no other word changes |
| `BuildFl.BuildClear4` | src/common/gc/new_hblk.c:60-76 | So does the cleared four-word loop |
| `BuildFl.Build4` | src/common/gc/new_hblk.c:79-93 | So does the four-word loop unrolled by two |
| `BuildFl.Build` | src/common/gc/new_hblk.c:96-156 | GC_build_fl returns a list of every object of the block, last to first, then the old list, whichever loop it picks |
| `Sweep.UnmarkedElems` | src/common/gc/reclaim.c:173-229 | The objects freed are exactly the unmarked ones of the block, in strictly falling order |
| `Sweep.ClearBlock` | src/common/gc/reclaim.c:146-169 | All words of the object but the link are null and no other word changes |
| `Sweep.ReclaimClear` | src/common/gc/reclaim.c:173-202 | Each unmarked object once, in front of the old list, cleared; marked objects and everything outside are untouched; the count grows by their words |
| `Sweep.ReclaimUninit` | src/common/gc/reclaim.c:205-229 | The same without clearing |
| `Sweep.SizeClass.ReclaimNext` | src/common/gc/reclaim.c:332-349 | The block leaves the pending list and its unmarked objects join the free list, cleared or not as their kind asks for, with all other words untouched; free and pending together stay the same |
| `Sweep.SizeClass.SweepUntilFree` | src/common/gc/reclaim.c:737-761 | The sweep stops as soon as the free list is not empty or nothing is pending; free and pending together stay the same |
| `Sweep.SizeClass.ContinueReclaim` | src/common/gc/reclaim.c:737-761 | The free list is exactly what the swept blocks give, and only the last of several gave anything |
| `Sweep.SizeClass.TakeObject` | src/common/gc/malloc.c:165-202 | NULL only when nothing is free or pending; otherwise exactly one object leaves the pool, the first free one if there is any, with its link cleared, and all of it null if objects of this kind are to be cleared |
| `Sweep.SizeClass.UnlinkFirst` | src/common/gc/malloc.c:194-196 | The first object leaves the free list and exactly its link word is cleared |
| `Sweep.SizeClass.ClearLinks` | src/common/gc/reclaim.c:662-670 | Exactly the links of the old free list are cleared |
| `Sweep.SizeClass.StartReclaim` | src/common/gc/reclaim.c:674-735 | Empty blocks are given back and counted as found, others queued unless nearly full, and the free list starts empty; exactly the links of the old free list are cleared, if that is asked for |
| `Sweep.WithFateElems` | src/common/gc/reclaim.c:385-513 | Exactly the blocks with that fate, in reverse order |
| `Sweep.SweepMissesOnlyLeft` | src/common/gc/reclaim.c:385-513 | An object of a queued block will be free exactly when it is unmarked |
| `Sweep.InUnmarked` | src/common/gc/reclaim.c:173-229 | An object is freed exactly when its own mark bit is clear |
| `Sweep.UnmarkedCount` | src/common/gc/reclaim.c:173-229 | The objects of a block are its unmarked ones and its mark bits |
| `Sweep.LeftIsNearlyFull` | src/common/gc/reclaim.c:139-141 | A block is left unswept if and only if some object is marked, fewer than an eighth are not, and no leaks are looked for; it is given back if and only if no object is marked |
| `Sweep.YieldSplit` | src/common/gc/reclaim.c:737-761 | What the pending blocks give splits at any point of the sweep |
| `Sweep.SweepClears` | src/common/gc/reclaim.c:173-202 | With clearing, all words but the links of all free objects are null after every block swept |
| `Exclusions.ExclTable.constructor` | src/common/gc/mark_rts.c:532-539 | An empty table is valid |
| `Exclusions.ExclTable.NextExclusion` | src/common/gc/mark_rts.c:543-566 | The first range that ends after the address, and NULL exactly when none does |
| `Exclusions.ExclTable.Exclude` | src/common/gc/mark_rts.c:569-613 | The table stays sorted and disjoint and covers exactly the new range besides; it aborts exactly on an overlap, or when the table is full and no range can be extended backwards |
| `Exclusions.ExclTable.InsertAt` | src/common/gc/mark_rts.c:595-612 | The entries after the place move up by one |
| `Exclusions.ExclTable.PushWithExclusions` | src/common/gc/mark_rts.c:643-663 | The ranges pushed are ordered and disjoint and cover exactly the part of the range that is not excluded |
| `Exclusions.Extended` | src/common/gc/mark_rts.c:580-589 | So does extending a range backwards, and it covers exactly the new range besides |
| `SizeMap.RoundedOk` | src/common/gc/malloc.c:141-156 | Rounding to an even size and filling the block never shrinks the size, stays within MAXOBJGRANULES, and leaves no larger even size with as many objects in a block |
| `SizeMap.StretchOk` | src/common/gc/malloc.c:150-156 | The number of objects in a block is unchanged |
| `SizeMap.StretchFull` | src/common/gc/malloc.c:150-156 | The size chosen is the largest even one with that number |
| `SizeMap.RoundedFits` | src/common/gc/malloc.c:141-156 | A block holds as many objects of the rounded size as of the even size next to any bound of the size before |
| `SizeMap.FillDense` | src/common/gc/malloc.c:110-112 | Every filled section of the map that ends at n keeps a length of at least n / 4 |
| `SizeMap.FillSnug` | src/common/gc/misc.c:228-233 | Every filled entry stays not too much bigger than its request: a block holds no fewer objects than of a size about half as large again |
| `SizeMap.Round` | src/common/gc/malloc.c:141-156 | The same for the code's arithmetic |
| `SizeMap.Sizes.constructor` | src/common/gc/misc.c:235-250 | The tiny sizes are filled exactly, and all others are empty |
| `SizeMap.Sizes.FirstEmpty` | src/common/gc/malloc.c:126-137 | The first empty entry from the given one on |
| `SizeMap.Sizes.Choose` | src/common/gc/malloc.c:113-139 | The size chosen is the request in granules, or an eighth more than the lowest entry to fill needs when that is larger, and so at most an eighth more than the request; the lowest entry is the first empty one from a quarter, or an eighth, below the request |
| `SizeMap.Sizes.Extend` | src/common/gc/malloc.c:113-163 | Exactly the entries from one at least three quarters of the request on, up to what the new size holds, get one full-block even size that holds the request; a block holds no fewer objects than of the request and an eighth, rounded up to even |
| `SizeMap.Sizes.ClassOf` | src/common/gc/malloc.c:165-186 | Objects of the class found hold the request |
| `RangeScan.DeferredIs` | src/common/gc/mark.c:862-905 | The word found from the end is plausible and none after it is |
| `RangeScan.ConsideredExactly` | src/common/gc/mark.c:862-942 | With an aligned end, exactly the aligned plausible words are considered |
| `RangeScan.ScanPart` | src/common/gc/mark.c:862-942 | The loop considers the words the specification names, each once |
| `RangeScan.StepExact` | src/common/gc/mark.c:684-731 | A step on an entry loses no slot and adds none: the fixed part, the halves with their overlapping word, and the small range |
| `RangeScan.StepWork` | src/common/gc/mark.c:684-731 | Both kinds of split decrease a bound on the work left |
| `RangeScan.MarkRange` | src/common/gc/mark.c:684-942 | The addresses considered are those of the splitting steps, for any length and any stack size, and it terminates |
| `RangeScan.LooksExactly` | src/common/gc/mark.c:684-942 | Of entries of aligned length, however split, exactly the aligned plausible slots are considered |
| `RangeScan.RangeExactIff` | src/common/gc/mark.c:684-942 | A range, split or not, in parallel or not, is scanned exactly, whatever memory holds, if and only if its length is a multiple of the alignment or has no room for a word |
| `RangeScan.SmallRangeExactIff` | src/common/gc/mark.c:862-942 | A small range is scanned exactly, whatever memory holds, if and only if its length is a multiple of the alignment or has no room for a word |

## Left out

- Mark stack entries with bitmap, procedure and per-object descriptors: only length descriptors are modelled.
- `mark.c` in `MarkPhase` and `ParallelMark` works in words, with the alignment equal to the pointer size; the byte-level splitting with smaller alignments is `RangeScan`.
- The fault-catching wrapper of `GC_mark_some`, the `on_mark_stack_empty` callback, and the marking of free-list headers by `GC_push_roots`.
- Marking with `GC_parallel` set by one thread alone: `MarkSteps` is the sequential configuration, in which `GC_mark_from` never halves an entry.  Halving needs more room on the stack than `FinalMarks.MarksExactIff` allows for.
- Termination of a parallel mark under every fair schedule: two thieves can take the same entry each time, so it needs more than fairness. `ParallelFinish.CanFinish` says that every run can be brought to an end.
- `HeaderIndex.Index.GetIndex`: the hash chains of the top index are modelled as a map from keys to bottom tables.
- The pushing of registers and thread stacks: roots are given ranges of words; a thread stack section is one range.
- In the handshake, a thread that exits in the middle of a stop (ESRCH for a thread that was sent a signal before), suspension of single threads by the client, NaCl, and the delivery of restart signals: a held thread may leave the loop of `sigsuspend` at any time after the count has changed, as any signal lets it.
- `StopWorld.StopsAreSafe`: for runs in which no stop begins with a suspend signal of an earlier stop pending, because without that the claim is false; `StaleSignal.StopIsSafeIff` gives both directions.
- `USE_MUNMAP`, CHERI, page mixing under `MPROTECT_VDB`, and the merging of Windows roots.
- Failure to allocate a header: the source drops the block, so the conservation laws assume success.
- `BlockAlloc` keeps the header index as one map; `HeaderIndex` proves that the two-level walks agree with it, but the two classes are not joined.
- The free flag and the size of a header are one entry of that map; the counter for the repeated warning about large allocations, and the bytes counted as dropped, are not kept.
- The forced collection in `GC_grow_table`, Java finalization, toggle references, `GC_enqueue_all_finalizers`, and running the queued finalizers.
- Finalizer objects are identified with their addresses and hidden pointers are not disguised; chains are sequences of nodes, so relinking within a chain is not modelled pointer by pointer.
- Out-of-memory handling in registration: every registration finds memory for its node.
- The count of bytes allocated, disclaim procedures, leak reports, several object kinds at once, and the `ignore_old` and `stop_func` arguments of `GC_reclaim_all`.
- The mark count of a block header is taken to be exact.
- Lookups after removals: the map view ends with the first removal, because lookups stop at freed buckets; `HashTable.RemovalHides` says exactly which keys are lost, and `HashTable.Table.Remove` what each removal does.
- The FNV hash function: the hash is any function of the key.
- The break in `GC_install_counts` on wrap-around of the address, and other wrap-around of 64-bit words except where a contract mentions the sign bit or the end of the address space.
- The promotion of black lists between collections and the statistics kept about them.
- `GC_malloc` and its variants above the small-object path, debug headers, thread creation, dynamic libraries, statistics and logging.
- The assembler front end, its buffers, strings and lists, file input and output, and the instruction set described in the repository's own README.
