# Verified models of pthreads-win32 and of a part of SQLite

This project models the two C libraries under `Windows/libpthread` and `Windows/libsqlite` where
they are hardest, and proves what they promise.  `dafny verify dfyconfig.toml` checks it all.

The synchronisation objects of pthreads-win32 are state machines.  A state has the shared words and
one program counter for each of any number of threads; a step is one atomic action of one thread
(an Interlocked operation, a kernel call, or an access that a lock guards).  Theorems speak of
every state of every run.  They count threads with the sums of `Counting`, and the lower objects
serve as atomic steps of the higher ones: the semaphore and the mutex in the condition variable,
the read-write lock and the barrier, the queue lock in `pthread_once`.

| file | what it models |
|---|---|
| `Basics.dfy`, `Runs.dfy`, `Counting.dfy`, `Chain.dfy` | shared names; runs and their invariants; sums over threads; chains of neighbours |
| `Semaphore.dfy`, `Mutex.dfy`, `McsLock.dfy` | POSIX semaphore, the three kinds of mutex, MCS queue lock |
| `CondVar.dfy`, `CondVarTheorems.dfy` | Terekhov's algorithm 9: steps and invariant, and what follows |
| `Rwlock.dfy`, `Barrier.dfy`, `Once.dfy` | read-write lock, two-semaphore barrier, one-time initialisation |
| `TsdLists.dfy`, `Tsd.dfy`, `TsdExit.dfy` | thread-specific data: the doubly linked rows and columns on the heap, the operations, thread exit |
| `Reuse.dfy`, `Detach.dfy` | reclamation of thread structs |
| `BitvecLayout.dfy`, `BitvecHash.dfy`, `BitvecMap.dfy`, `Bitvec.dfy` | the adaptive set: hash table, bitmap, recursive form |
| `BitvecCalls.dfy` | when an insertion into it returns |
| `Backup.dfy` | online backup between page sizes of a source that changes |
| `BtMutex.dfy`, `BtThreads.dfy` | ordered locking of shared caches: the calls, and many connections at once |
| `Complete.dfy`, `CompleteText.dfy` | the end of a statement: table and grammar, tokens and the pass |
| `CompleteScan.dfy`, `CompleteEnds.dfy` | the same by single characters: what comments, quotes, letter case, semicolons and `;END;` do to a text |

Operations that update structures in place are methods on classes with those fields; their contracts
give the whole new state, and the lemmas say what it means.

## Where the code does not do what it says

* A thread cancelled in `sem_wait` or `sem_timedwait` takes a token that was posted meanwhile and is
  cancelled all the same (`Windows/libpthread/sem_wait.c:56-62`).  The condition variable calls that
  harmless for its gate (`Windows/libpthread/pthread_cond_wait.c:384`), but the token is then lost and
  the gate stays closed for ever: `CancelledEntryStrands` gives the run.  `QuiescentIsDrained` proves
  that the gate is open again in every quiet state if and only if no token was swallowed so.
* `Bitvec.iSize` is documented up to 2^32 (`Windows/libsqlite/bitvec.c:94`), but the sum that gives
  `iDivisor` wraps around in 32 bits.  `ReturnsIffDivisorFits` proves that insertions always return if
  and only if `iSize <= 2^32 - BITVEC_NPTR`; above it `FirstFailure` gives the first 125 numbers as a
  series that does not, and `UsedUp` says from when on which insertions never return.
* A finished backup is not a byte-for-byte copy: the last step writes the destination's schema
  version plus one and the commit its change counter plus one (`Windows/libsqlite/backup.c:364-366`,
  `Windows/libsqlite/pager.c:4475-4477`).  `SameAsSource` proves that it is one if and only if the
  source has these values already, and `OwnHeader` gives a run in which both differ.
* A page that the source lost after it was copied, and that comes back in front of a later write
  without being written itself, is not copied again.  `MirrorIffFresh` and `FinalIffFresh` prove that
  the copy is right if and only if no page has come back different so, and `StaleCopy` gives the run.
* `sqlite3_backup_remaining` is 0 after the last step if and only if the source had not shrunk below
  the pages copied before that step; otherwise the unsigned difference wraps and is reported as a
  negative number (`Windows/libsqlite/backup.c:351`, `Windows/libsqlite/backup.c:523-525`), as in
  `ShrunkSource`.
* Entering b-trees in the order of their addresses keeps one connection's calls from deadlocking.
  `sqlite3BtreeCopyFile` and the backup functions enter b-trees of two connections
  (`Windows/libsqlite/backup.c:596-597`): `NeverStuck` proves that waiting upwards over both is enough,
  and `OppositeOrder` is a deadlock of two threads that do not.
* The reuse "stack" of thread structs is a queue, and its 32-bit counters tell handles apart up to a
  multiple of 2^32 reuses (`HandleAge`).

## Model

| member | source | states |
|---|---|---|
| `CondVar.WaitCounts` | Windows/libpthread/pthread_cond_wait.c:291-341 | every step of a wait and of its cleanup keeps the counting invariant: the gate, its owners and the swallowed tokens sum to one, registered waiters are nWaitersBlocked + nWaitersToUnblock - nWaitersGone, and queued plus travelling tokens cover nWaitersToUnblock |
| `CondVar.UnblockCounts` | Windows/libpthread/pthread_cond_signal.c:87-146 | every step of signal and broadcast keeps the same invariant |
| `CondVar.DestroyCounts` | Windows/libpthread/pthread_cond_destroy.c:138-183 | every step of destroy, and every new call, keeps it |
| `CondVar.StepLocking` | Windows/libpthread/pthread_cond_wait.c:291-332 | mtxUnblockLock excludes, and what its holder has read stays true while other threads move |
| `CondVar.ReachableInv` | Windows/libpthread/pthread_cond_wait.c:291-341 | the invariant holds in every state of every run of any number of threads |
| `CondVarTheorems.Conservation` | Windows/libpthread/pthread_cond_wait.c:297-326 | with mtxUnblockLock free the registered, unaccounted waiters are exactly nWaitersBlocked + nWaitersToUnblock - nWaitersGone; no count is negative; nWaitersToUnblock > 0 implies nWaitersGone = 0; departures stay below INT_MAX / 2 |
| `CondVarTheorems.NoOverflow` | Windows/libpthread/pthread_cond_wait.c:301-325 | the fold at INT_MAX / 2 keeps all three counters within an int for up to INT_MAX - INT_MAX / 2 threads |
| `CondVarTheorems.WakeupsConserved` | Windows/libpthread/pthread_cond_signal.c:92-146 | every wakeup committed to was taken, is queued, or is about to be posted |
| `CondVarTheorems.GateHasOneOwner` | Windows/libpthread/pthread_cond_wait.c:385-395 | semBlockLock is 0 or 1, and it is 0 exactly when a cancelled entry swallowed its token, a batch is being unblocked, or exactly one thread owns the closing |
| `CondVarTheorems.BlockedHasOneWriter` | Windows/libpthread/pthread_cond_wait.c:390 | nWaitersBlocked, which no single lock guards, is never about to be written by two threads at once |
| `CondVarTheorems.TestStillHolds` | Windows/libpthread/pthread_cond_signal.c:110-134 | the test nWaitersBlocked > nWaitersGone, made with the gate open, still holds once the signaller has closed it |
| `CondVarTheorems.SignalIsExact` | Windows/libpthread/pthread_cond_signal.c:92-138 | a signal is a no-op exactly when every registered waiter has a wakeup already; otherwise signal commits one wakeup more and broadcast one to every registered waiter |
| `CondVarTheorems.DestroyNeedsNoWaiter` | Windows/libpthread/pthread_cond_destroy.c:138-183 | a destroy that succeeds finds no registered waiter and every other thread outside the regions that use the counters |
| `CondVarTheorems.DestroyDecides` | Windows/libpthread/pthread_cond_destroy.c:150-183 | once it has the gate and mtxUnblockLock a destroy succeeds exactly when no waiter is registered, and before that it gives up exactly when it finds that lock taken |
| `CondVarTheorems.AdvanceIsAMove` | Windows/libpthread/pthread_cond_wait.c:385-440 | the progress test used below is exactly the existence of a move that neither starts a call nor gives up |
| `CondVarTheorems.BatchProgress` | Windows/libpthread/pthread_cond_wait.c:334-341 | while the gate is closed for a batch some thread can take a step |
| `CondVarTheorems.HolderProgress` | Windows/libpthread/pthread_cond_signal.c:110-140 | while one thread owns the closing or mtxUnblockLock is held some thread can take a step |
| `CondVarTheorems.QuiescentIsDrained` | Windows/libpthread/pthread_cond_wait.c:334-341 | when nothing can move but by a new call, a timeout or a cancellation, the gate is open if and only if no cancelled entry swallowed its token, and then no batch is pending, no lock is held and no wakeup is lost |
| `CondVarTheorems.DrainEnds` | Windows/libpthread/pthread_cond_wait.c:285-341 | without new calls every run ends after a bounded number of steps |
| `CondVarTheorems.CancelledEntryStrands` | Windows/libpthread/pthread_cond_wait.c:384-388 | a run of three threads in which a cancellation in sem_wait on the gate consumes the token that the registering thread posts meanwhile, and the third thread finds the gate closed with nobody to open it |
| `CondVarTheorems.SwallowedForEver` | Windows/libpthread/sem_wait.c:54-78 | from then on the gate stays closed: no thread enters, folds or signals again |
| `Semaphore.TokensConserved` | Windows/libpthread/sem_timedwait.c:61-92 | threads committed to waiting = kernel count + max(0, -value), and initial value + posts = tokens returned + swallowed + max(value, 0) + kernel count, in every run with timeouts, cancellations and failing releases |
| `Semaphore.MoveCounts` | Windows/libpthread/sem_post_multiple.c:87-122 | each step of a wait, its cleanup, a post, a batch post or a trywait keeps both equations |
| `Semaphore.WaiterCanTakeIffAvailable` | Windows/libpthread/ptw32_semwait.c:77-100 | a committed waiter has a step that takes a token and returns exactly when a token is available, and a leaving one takes one exactly then |
| `Semaphore.StepRefinesCounter` | Windows/libpthread/sem_wait.c:54-78 | every step is a step of an abstract counting semaphore: it takes one available token, adds the posted ones or changes nothing; a token is swallowed exactly when a cancelled sem_wait or sem_timedwait leaves while one is available, a timed-out sem_timedwait then returns success instead, and the uninterruptible entry never leaves |
| `Semaphore.PostIsBatchOfOne` | Windows/libpthread/sem_post.c:83-108 | sem_post, with its rollback, is sem_post_multiple with count 1 |
| `Semaphore.BatchIsPosts` | Windows/libpthread/sem_post_multiple.c:89-117 | a batch post is the same as that many single posts |
| `Semaphore.PostDecides` | Windows/libpthread/sem_post_multiple.c:85-122 | a post for count tokens succeeds exactly when count is positive, value + count fits and the release of waiters does not fail; it then makes exactly count tokens more available, and otherwise changes nothing; ERANGE comes exactly from the overflow |
| `Semaphore.WaitDecides` | Windows/libpthread/sem_trywait.c:86-95 | in reachable states a wait returns at once exactly when a token is available that no waiter has been given, and takes it, and a try then succeeds and otherwise fails and changes nothing |
| `Mutex.StepInv` | Windows/libpthread/pthread_mutex_lock.c:73-136 | every step of lock, timedlock, trylock and unlock on every kind of mutex keeps the invariant |
| `Mutex.MutualExclusion` | Windows/libpthread/pthread_mutex_lock.c:73-136 | at most one thread holds the mutex, and lock_idx is non-zero exactly when one does |
| `Mutex.OwnerHolds` | Windows/libpthread/pthread_mutex_trylock.c:67-89 | ownerThread = t implies that t holds the mutex; between calls it names exactly the holder, and recursive_count is the holder's nesting depth |
| `Mutex.NoLostWakeup` | Windows/libpthread/pthread_mutex_timedlock.c:135-193 | while a thread is blocked on the event the word is -1, or the event is set, or a SetEvent is pending, or a thread is about to exchange -1 |
| `Mutex.CallsReport` | Windows/libpthread/pthread_mutex_unlock.c:58-111 | a lock that reports success adds one hold, one that reports an error adds none; an unlock gives back exactly one hold, whether or not it sets the event, or is refused to a thread that has none |
| `Mutex.ResultsByKind` | Windows/libpthread/pthread_mutex_lock.c:99-134 | the holder of a recursive mutex always nests; EDEADLK comes exactly from lock of an error-checking mutex by its holder, EBUSY exactly from trylock of a mutex that is held and does not nest, ETIMEDOUT only from a timed wait, EPERM only from an unlock by a thread that has no hold |
| `Mutex.AttemptsDecide` | Windows/libpthread/pthread_mutex_trylock.c:67-89 | an attempt of lock, of its wait loop or of trylock gets the mutex exactly when no thread holds it, and otherwise goes on as the kind demands; the owner check goes on to wait exactly for a thread that is not the holder |
| `Mutex.AdvanceIsAMove` | Windows/libpthread/pthread_mutex_lock.c:73-136 | the progress test is exactly the existence of a move other than a new call or a timeout |
| `Mutex.BlockedOnlyByHolder` | Windows/libpthread/pthread_mutex_unlock.c:60-105 | when nothing can move but by a new call or a timeout, a blocked thread waits for a real holder |
| `Mutex.DrainEnds` | Windows/libpthread/pthread_mutex_lock.c:79-88 | without new calls the wait loops end |
| `McsLock.StepKeeps` | Windows/libpthread/ptw32_MCS_lock.c:101-210 | every exchange, compare-exchange, pointer store, SetEvent and wait keeps the chain invariant of the queue |
| `McsLock.GrantedInOrder` | Windows/libpthread/ptw32_MCS_lock.c:151-172 | an acquisition is granted the lock only when every one that exchanged itself into the tail before it has released |
| `McsLock.MutualExclusion` | Windows/libpthread/ptw32_MCS_lock.c:151-210 | at most one acquisition holds the lock |
| `McsLock.TailNullIffEmpty` | Windows/libpthread/ptw32_MCS_lock.c:162-200 | the tail is null exactly when every acquisition has released, and otherwise it is the last one to arrive |
| `McsLock.SuccessorIsKnown` | Windows/libpthread/ptw32_MCS_lock.c:202-209 | release never reads a null successor after waiting, passes the lock to the next in the queue, and never takes -1 for an event handle |
| `McsLock.AdvanceIsAStep` | Windows/libpthread/ptw32_MCS_lock.c:101-141 | an acquisition that is not asleep on a flag can take its next step |
| `McsLock.HeadHoldsOrMoves` | Windows/libpthread/ptw32_MCS_lock.c:183-210 | no reachable state has a queued acquisition with neither a holder nor a hand-over in progress |
| `McsLock.DrainEnds` | Windows/libpthread/ptw32_MCS_lock.c:183-210 | without new arrivals every acquisition and release ends |
| `Once.InitialisedOnce` | Windows/libpthread/pthread_once.c:57-84 | for any number of callers and cancellations the initialiser completes at most once, never runs in two threads at once, and never starts again after completing |
| `Once.ReturnsAfterCompletion` | Windows/libpthread/pthread_once.c:57-84 | every call that returns does so after the initialiser has completed |
| `Once.NobodyStranded` | Windows/libpthread/pthread_once.c:45-48 | a cancelled initialiser releases the lock: while a call is in progress some thread can move |
| `Once.CompletedForGood` | Windows/libpthread/pthread_once.c:65-79 | once completed it stays completed in every later state of the run |
| `Once.AdvanceIsAMove` | Windows/libpthread/pthread_once.c:57-84 | the progress test is exactly the existence of a move other than a new call |
| `Once.DrainEnds` | Windows/libpthread/pthread_once.c:57-84 | without new calls every call ends, if the initialiser does |
| `Rwlock.ReadCounts` | Windows/libpthread/pthread_rwlock_rdlock.c:77-102 | every step of rdlock, with the fold at INT_MAX, keeps the counting invariant |
| `Rwlock.WriteCounts` | Windows/libpthread/pthread_rwlock_wrlock.c:77-133 | every step of wrlock, timedwrlock and trywrlock, with draining, timeout and cancellation, keeps it |
| `Rwlock.UnlockCounts` | Windows/libpthread/pthread_rwlock_unlock.c:69-91 | every step of unlock keeps it, although nExclusiveAccessCount is read without a lock |
| `Rwlock.WriterExcludes` | Windows/libpthread/pthread_rwlock_wrlock.c:87-131 | a writer never coexists with a reader or another writer |
| `Rwlock.ReadersCounted` | Windows/libpthread/ptw32_rwlock_cancelwrwait.c:45-49 | active readers are -nCompletedSharedAccessCount while a writer drains and nSharedAccessCount - nCompletedSharedAccessCount otherwise, through fold, timeout and cancellation |
| `Rwlock.OneWaiter` | Windows/libpthread/pthread_rwlock_wrlock.c:109-114 | at most one thread waits on the condition |
| `Rwlock.NoReaderEnters` | Windows/libpthread/pthread_rwlock_rdlock.c:77-82 | no reader enters while a writer drains |
| `Rwlock.LastReaderSignals` | Windows/libpthread/pthread_rwlock_unlock.c:71-82 | when the readers have left, the draining writer is signalled or the last reader is about to signal it |
| `Rwlock.NeverHeldTwice` | Windows/libpthread/pthread_rwlock_timedwrlock.c:89-132 | the branches for nExclusiveAccessCount != 0 are unreachable for writers, and unlock takes the writer branch exactly for the writer |
| `Rwlock.CallsReport` | Windows/libpthread/pthread_rwlock_wrlock.c:77-134 | a read call ends with one more read lock, a write call with the write lock exactly when it reports success, an unlock with one lock less; EBUSY comes from trywrlock only, ETIMEDOUT from timedwrlock only, and a cancelled call is a waiting one |
| `Rwlock.WriterDecides` | Windows/libpthread/pthread_rwlock_wrlock.c:87-131 | with both mutexes, and again after its wait, a writer takes the lock exactly when there is no reader; otherwise trywrlock gives up and the others wait |
| `Rwlock.BusyMeansOccupied` | Windows/libpthread/pthread_rwlock_trywrlock.c:77-111 | trywrlock gives up only when another thread has one of the mutexes or there are readers |
| `Rwlock.NoOverflow` | Windows/libpthread/pthread_rwlock_rdlock.c:82-96 | with fewer than INT_MAX read locks at a time the counters stay within an int |
| `Rwlock.AdvanceIsAMove` | Windows/libpthread/pthread_rwlock_trywrlock.c:77-120 | the progress test is exactly the existence of a step that is no new call, timeout, cancellation or unfounded wakeup |
| `Rwlock.BlockedOnlyByKeeper` | Windows/libpthread/pthread_rwlock_unlock.c:69-91 | when nothing else can move, a blocked thread waits for one that really has the lock |
| `Rwlock.DrainEnds` | Windows/libpthread/pthread_rwlock_wrlock.c:109-114 | without new calls and unfounded wakeups the waiting loops end |
| `Barrier.MoveCounts` | Windows/libpthread/pthread_barrier_wait.c:53-98 | every step but the reset of the height keeps the invariant on height, step and the two semaphores |
| `Barrier.ResetInv` | Windows/libpthread/pthread_barrier_wait.c:55-58 | the reset happens with all other threads waiting, opens the next phase and keeps the invariant |
| `Barrier.NobodyPassesEarly` | Windows/libpthread/pthread_barrier_wait.c:55-83 | no call for phase k gets past before all threads have entered phase k |
| `Barrier.SameSemaphore` | Windows/libpthread/pthread_barrier_wait.c:53-82 | all threads of a phase use the same semaphore, that of the phase's parity |
| `Barrier.TokensStayInPhase` | Windows/libpthread/pthread_barrier_wait.c:70-82 | a token taken in phase k was posted for phase k, and there are exactly as many as threads still to take one |
| `Barrier.OneSerial` | Windows/libpthread/pthread_barrier_wait.c:88-96 | the call that gets PTHREAD_BARRIER_SERIAL_THREAD is the first to leave its phase, and after any call has left phase k exactly k + 1 have been granted in all |
| `Barrier.SerialsCount` | Windows/libpthread/pthread_barrier_wait.c:88-96 | a thread in phase k sees k or k + 1 grants: at most one per phase |
| `Barrier.AdvanceIsAMove` | Windows/libpthread/pthread_barrier_wait.c:53-98 | the progress test is exactly the existence of a move other than a new call |
| `Barrier.NobodyStranded` | Windows/libpthread/pthread_barrier_wait.c:78-82 | when nothing can move but by a new call, a waiting thread waits for one that has not yet made its call for that phase |
| `TsdLists.PushColumn` | Windows/libpthread/ptw32_tkAssocCreate.c:104-114 | linking an association at the head of its thread's list keeps every list, its order and the inverse links |
| `TsdLists.PushRow` | Windows/libpthread/ptw32_tkAssocCreate.c:93-102 | the same for its key's list |
| `TsdLists.UnlinkColumn` | Windows/libpthread/ptw32_tkAssocDestroy.c:72-88 | unlinking from the thread's list removes exactly that association and keeps the order of the rest |
| `TsdLists.UnlinkRow` | Windows/libpthread/ptw32_tkAssocDestroy.c:97-112 | the same for the key's list |
| `TsdLists.HandOver` | Windows/libpthread/ptw32_tkAssocDestroy.c:89-96 | a thread about to process the association is handed the one after it, and every nextAssoc stays null or on its own list |
| `TsdLists.ShapeRemove` | Windows/libpthread/ptw32_tkAssocDestroy.c:63-112 | each live association stays exactly once in its row and once in its column after another one is removed |
| `TsdLists.ShapeAdd` | Windows/libpthread/ptw32_tkAssocCreate.c:84-114 | a new association for a pair that has none keeps one association per thread and key, each on its two lists |
| `TsdLists.AheadAfterDrop` | Windows/libpthread/ptw32_tkAssocDestroy.c:89-96 | what a thread still has to process loses exactly the removed association, in the same order |
| `Tsd.Destroy` | Windows/libpthread/ptw32_tkAssocDestroy.c:63-112 | exactly this association leaves its two lists; every other list, and what every thread still has to process, keeps its order |
| `Tsd.Create` | Windows/libpthread/ptw32_tkAssocCreate.c:84-117 | unless the allocation fails, one fresh association heads its two lists; ENOMEM changes nothing |
| `Tsd.Find` | Windows/libpthread/pthread_setspecific.c:123-141 | the search finds the association of the thread and the key exactly when there is one |
| `Tsd.SetSpecific` | Windows/libpthread/pthread_setspecific.c:106-164 | the value is stored unless the allocation or the system fails, and then no value changes; an association is created exactly when the key has a destructor, the value is not null, there was none and the allocation succeeds |
| `Tsd.KeyDelete` | Windows/libpthread/pthread_key_delete.c:71-130 | the key's row is emptied and the key is gone; every other row, every column but for those associations, and every thread's remaining work keep their order |
| `Tsd.DroppedTwice` | Windows/libpthread/pthread_key_delete.c:86-112 | removing twice is removing both at once, so the loop of deletions is one removal |
| `TsdExit.SomeStep` | Windows/libpthread/ptw32_callUserDestroyRoutines.c:104-135 | whatever another thread, or the destructor, does, the exiting thread's remaining work only loses associations that are gone |
| `TsdExit.Pass` | Windows/libpthread/ptw32_callUserDestroyRoutines.c:86-215 | in one pass every association that was on the list is taken up once or deleted by somebody else, none is touched again after its turn, a destructor gets a non-null value only, and a pass without a destructor leaves the list empty |
| `TsdExit.Process` | Windows/libpthread/ptw32_callUserDestroyRoutines.c:138-213 | the destructor runs, after the value is cleared, exactly when the thread has a non-null value for the key in one of the first PTHREAD_DESTRUCTOR_ITERATIONS passes; otherwise the association is destroyed; every other value, of this and of all other threads, changes only by what pthread_setspecific sets while the destructor runs |
| `TsdExit.CallUserDestroyRoutines` | Windows/libpthread/ptw32_callUserDestroyRoutines.c:81-218 | whatever destructors and other threads do, at most PTHREAD_DESTRUCTOR_ITERATIONS + 1 passes are made, the calls of destructors are exactly those in the log, no association has its destructor called more than PTHREAD_DESTRUCTOR_ITERATIONS times, and the thread's chain ends empty; if nobody does anything meanwhile, exactly the associations the thread has a non-null value for get one call each, and exactly the thread's values for its associations are cleared |
| `TsdExit.DestructorBound` | Windows/libpthread/ptw32_callUserDestroyRoutines.c:159 | the calls that a log of growing passes adds are at most PTHREAD_DESTRUCTOR_ITERATIONS for one association |
| `TsdExit.OwnValuesKept` | Windows/libpthread/pthread_setspecific.c:106-164 | steps of other threads never change a value of the exiting thread |
| `TsdExit.FirstPass` | Windows/libpthread/ptw32_callUserDestroyRoutines.c:138-213 | an undisturbed first pass takes up every association in order with the value the thread had at its exit, and calls exactly the destructors that have one |
| `TsdExit.LaterPass` | Windows/libpthread/ptw32_callUserDestroyRoutines.c:138-213 | an undisturbed later pass finds no value and calls nothing |
| `Reuse.Pool.Pop` | Windows/libpthread/ptw32_reuse.c:75-103 | the struct that has waited longest leaves the queue with its handle unchanged |
| `Reuse.Pool.Push` | Windows/libpthread/ptw32_reuse.c:112-147 | the struct goes to the end of the queue, and its handle counter is the number of pushes modulo 2^32 |
| `Reuse.Pool.New` | Windows/libpthread/ptw32_new.c:42-66 | a struct from the queue if there is one, otherwise a new one of generation 0 |
| `Reuse.HandleAge` | Windows/libpthread/ptw32_reuse.c:128-133 | a handle that was copied when the struct had been pushed n times passes the check of pthread_detach exactly while the number of pushes since then is a multiple of 2^32: short of the wrap, only until the first |
| `Detach.StepInv` | Windows/libpthread/pthread_detach.c:79-135 | every interleaving of the exit, one detach or join, and later reuse of the struct keeps the invariant that determines who destroys it |
| `Detach.DestroyedOnce` | Windows/libpthread/pthread_win32_attach_detach_np.c:264-281 | the struct is destroyed at most once, and exactly once when both sides are through |
| `Detach.NoUseAfterDestroy` | Windows/libpthread/pthread_detach.c:125-132 | while the exit, or a join or detach past its check of the handle, still uses the struct, it has not been destroyed and has the generation of the handle |
| `Detach.ResultsMeanWho` | Windows/libpthread/pthread_detach.c:79-135 | ESRCH means that the exit has destroyed the struct, EINVAL that the exit destroys it, and has done so once it is past that point; success means that the detacher has destroyed it after the thread's end, or that the exit does |
| `Detach.ResultsMeanWhat` | Windows/libpthread/pthread_detach.c:81-97 | ESRCH is returned exactly for a handle that was stale at the check, EINVAL exactly for a thread that was detached then, success exactly for a joinable one, and from a join only after the end of the thread |
| `Detach.DecidesByLast` | Windows/libpthread/pthread_detach.c:99-113 | under cancelLock the detacher takes over the destruction exactly when the thread has reached its last state, and marks it detached otherwise |
| `Detach.CancelledJoinLeavesJoinable` | Windows/libpthread/pthread_join.c:122-129 | a join that is cancelled while it waits leaves the thread joinable: nobody destroys the struct and the handle stays valid |
| `Detach.NoDeadlock` | Windows/libpthread/pthread_detach.c:79-123 | the two locks and the wait for the thread's end never block both sides |
| `Detach.CanMoveIsAStep` | Windows/libpthread/pthread_detach.c:79-135 | the progress tests are exactly the existence of a step of that side that starts no call and is no cancellation |
| `BitvecHash.NotStored` | Windows/libsqlite/bitvec.c:144-149 | meeting a free slot when probing from a value's home means that the value is not stored |
| `BitvecHash.Store` | Windows/libsqlite/bitvec.c:197-204 | storing a value in the first free slot keeps every value reachable by probing |
| `BitvecHash.FreeSlot` | Windows/libsqlite/bitvec.c:188-194 | a table that holds fewer values than slots has a free slot, so every probe loop ends |
| `BitvecHash.Contains` | Windows/libsqlite/bitvec.c:144-149 | the probe loop of the membership test ends and decides membership |
| `BitvecHash.Probe` | Windows/libsqlite/bitvec.c:184-201 | the probe loop of insertion ends at the value or at the free slot where it belongs |
| `BitvecHash.Rebuild` | Windows/libsqlite/bitvec.c:251-266 | the rebuilding loop leaves a table of exactly the old values without the cleared one |
| `BitvecMap.OneByte` | Windows/libsqlite/bitvec.c:180-183 | changing one bit of one byte adds or removes exactly one number |
| `BitvecMap.Set` | Windows/libsqlite/bitvec.c:180-183 | setting the bit adds exactly that number |
| `BitvecMap.Clear` | Windows/libsqlite/bitvec.c:248-250 | clearing the bit removes exactly that number |
| `Bitvec.DivisorCovers` | Windows/libsqlite/bitvec.c:215 | the divisor is positive, shrinks the size and gives bins below BITVEC_NPTR for every number if and only if iSize <= 2^32 - BITVEC_NPTR; above that it is 0 |
| `Bitvec.Split` | Windows/libsqlite/bitvec.c:134-135 | the bin of a number is below BITVEC_NPTR, and bin and remainder together determine the number |
| `Bitvec.AtMostThreeDivisions` | Windows/libsqlite/bitvec.c:133-140 | three divisions reach an undivided node for every size up to the bound |
| `Bitvec.Bitvec.Test` | Windows/libsqlite/bitvec.c:129-151 | decides membership for every number, after at most three divisions |
| `Bitvec.Bitvec.Set` | Windows/libsqlite/bitvec.c:165-228 | success leaves exactly the old set plus the number, through conversions of hash nodes; an error happens only when memory is scarce and leaves a well-formed vector whose set is within old plus the number |
| `Bitvec.Bitvec.Convert` | Windows/libsqlite/bitvec.c:206-222 | a hash node becomes an array of children, and the new and all saved values are in it |
| `Bitvec.Bitvec.Clear` | Windows/libsqlite/bitvec.c:236-268 | leaves exactly the old set without the number, also for a number above iSize that stays inside the arrays |
| `Bitvec.BuiltinTest` | Windows/libsqlite/bitvec.c:333-407 | -1 only when memory is scarce; otherwise the vector and the linear array are exactly what the program makes of them, and the result is the first number on which they differ, or 0 when they agree; without a provoked fault it is 0 or -1 |
| `Bitvec.Compare` | Windows/libsqlite/bitvec.c:394-399 | finds the first number on which the array and the vector differ, or reports that there is none |
| `Bitvec.NoFaultAgrees` | Windows/libsqlite/bitvec.c:346-384 | programs without a provoked fault leave the array and the vector equal |
| `Bitvec.FaultShows` | Windows/libsqlite/bitvec.c:346-384 | the two differ on a number exactly when the last instruction for it provokes a fault and the number was not in the set |
| `BitvecCalls.ReturnsIffDivisorFits` | Windows/libsqlite/bitvec.c:165-228 | there is a depth of nested calls that no series of insertions exceeds if and only if iSize <= 2^32 - BITVEC_NPTR, and then seven nested calls and descents suffice |
| `BitvecCalls.Returns` | Windows/libsqlite/bitvec.c:165-228 | up to that bound one insertion returns within a depth given by the number of divisions, also when it splits a table and sets the saved values anew |
| `BitvecCalls.UsedUp` | Windows/libsqlite/bitvec.c:187-227 | above that bound, once nSet has reached BITVEC_NINT - 1, an insertion returns exactly for the values that are in the table; for any other it splits again however deep the calls nest |
| `BitvecCalls.FirstFailure` | Windows/libsqlite/bitvec.c:187-227 | above that bound, setting 1 to 124 fills the table of a new vector and setting 125 never returns |
| `OnlineBackup.Backup.BackupOnePage` | Windows/libsqlite/backup.c:202-253 | the bytes of the source page, but for those in the destination's pending page, are at the same file offsets of the destination, and no other byte has changed; any failure is fatal |
| `OnlineBackup.MirrorNext` | Windows/libsqlite/backup.c:337-347 | copying the next page, or skipping the pending page, extends the mirrored prefix by it |
| `OnlineBackup.MirrorRewritten` | Windows/libsqlite/backup.c:547-562 | copying a page again after it was rewritten restores the mirrored prefix |
| `OnlineBackup.Chunk` | Windows/libsqlite/backup.c:228-245 | each run of bytes fits into its source and destination page, for all power-of-two page sizes |
| `OnlineBackup.Backup.Update` | Windows/libsqlite/backup.c:547-565 | a page below iNext is copied again, any other call changes nothing, and the lock asserted by backupOnePage is held |
| `OnlineBackup.Backup.SourceWrite` | Windows/libsqlite/backup.c:547-565 | a reported write keeps the invariant that the destination mirrors every page as it was copied; exactly the written page stops being stale, and exactly those pages become so that lie between the old end and the write, had been copied before the source shrank, and come back different |
| `OnlineBackup.MirrorIffFresh` | Windows/libsqlite/backup.c:553-562 | the destination mirrors the source as it is now if and only if no copied page is stale, that is, has changed unreported |
| `OnlineBackup.StaleCopy` | Windows/libsqlite/backup.c:553-562 | three pages of which two are copied; the source shrinks to one and a third page is written, so that another second page comes back unwritten: the backup ends without any failure, with the old second page |
| `OnlineBackup.Backup.SourceReplace` | Windows/libsqlite/backup.c:576-582 | a restart sends an attached backup, and no other, to page 1, keeps the invariant after any change of the source, and leaves no page stale |
| `OnlineBackup.Backup.Step` | Windows/libsqlite/backup.c:288-469 | every step keeps the invariant and makes no page stale; while the source is in a write transaction a step returns SQLITE_BUSY and copies nothing; SQLITE_BUSY and SQLITE_LOCKED change nothing, a fatal error stays, and a memory database of another page size gives SQLITE_READONLY; SQLITE_OK means that exactly nPage pages were copied, pages are left and the backup is attached; a step on which nothing fails is done exactly when no page is left or it has no limit; SQLITE_DONE leaves a file with every page as it was copied, but those at the destination's pending page as they are now, and the two new header fields; sqlite3_backup_remaining is then 0 if and only if the source had not shrunk below the pages copied before the call, and otherwise minus the number of pages by which it had |
| `OnlineBackup.Backup.FinalIffFresh` | Windows/libsqlite/backup.c:359-445 | the finished file is the source as it is now, with the new header fields, when no page is stale, and with a fresh first page only then |
| `OnlineBackup.SameAsSource` | Windows/libsqlite/backup.c:364-366 | the finished file is the source byte for byte if and only if the source already has iDestSchema+1 at offset 40 and, where the pager counts the change, the destination's change counter plus one at offset 24 |
| `OnlineBackup.SchemaChanges` | Windows/libsqlite/backup.c:359-366 | the schema version in the file is the one the destination had when it was locked plus one in 32 bits, and so really a different one |
| `OnlineBackup.OwnHeader` | Windows/libsqlite/backup.c:364-366 | the backup of a page of zeros into an empty database ends with 1 at byte 27 and at byte 43 |
| `OnlineBackup.Backup.CountChange` | Windows/libsqlite/pager.c:4454-4477 | the change counter read with the destination is written back plus one, unless there are no pages, the change was counted before or the database is in memory |
| `OnlineBackup.ShrunkSource` | Windows/libsqlite/backup.c:523-525 | a backup of three pages of which two are copied when the source shrinks to one page ends, without any failure, with -1 pages remaining |
| `OnlineBackup.TruncateAssert` | Windows/libsqlite/backup.c:407-415 | the assertion about the truncated destination holds for all page counts and page sizes |
| `OnlineBackup.KeptPage` | Windows/libsqlite/backup.c:387-396 | no page that carries a source byte is cut off by the truncation |
| `OnlineBackup.PendingBehind` | Windows/libsqlite/backup.c:420-427 | source bytes in the destination's pending page lie behind the source's own pending page, where the final loop starts |
| `OnlineBackup.Backup.Finish` | Windows/libsqlite/backup.c:364-445 | after the header fields, the commit, the file truncation and the final loop, the file holds, of every page but the pending page, exactly the bytes copied with the new schema version and change counter in the first page, and nothing follows the source's end |
| `OnlineBackup.Backup.CopyFile` | Windows/libsqlite/backup.c:605-617 | the single step of sqlite3BtreeCopyFile never returns with pages left, as its assertion says, and leaves the source as it is with the new header fields |
| `BtMutex.Connection.LockBtreeMutex` | Windows/libsqlite/btmutex.c:27-35 | the only blocking call: it is made only when every BtShared mutex the connection has is at a smaller address |
| `BtMutex.Connection.Enter` | Windows/libsqlite/btmutex.c:67-124 | p is wanted once more and locked, every other b-tree is as before, and a sharable b-tree is locked exactly when wantToLock > 0 |
| `BtMutex.Connection.BackOff` | Windows/libsqlite/btmutex.c:108-123 | the larger mutexes are released before the wait and the wanted ones locked again in ascending order |
| `BtMutex.Connection.Leave` | Windows/libsqlite/btmutex.c:129-137 | undoes one enter |
| `BtMutex.Connection.EnterAll` | Windows/libsqlite/btmutex.c:186-214 | every sharable b-tree is wanted once more and locked, in ascending order from the first unlocked one |
| `BtMutex.Connection.LeaveAll` | Windows/libsqlite/btmutex.c:215-229 | every sharable b-tree is wanted once less, and locked exactly if still wanted |
| `BtMutex.Connection.EnterAllLeaveAll` | Windows/libsqlite/btmutex.c:186-229 | leaving all undoes entering all exactly |
| `BtMutex.BtreeMutexArray.Insert` | Windows/libsqlite/btmutex.c:267-293 | the contents become the sorted insertion of the b-tree; a b-tree that is null or not sharable changes nothing |
| `BtMutex.InsertedSorted` | Windows/libsqlite/btmutex.c:267-293 | sorted insertion keeps the array sorted by address |
| `BtMutex.InsertedOnce` | Windows/libsqlite/btmutex.c:267-293 | and adds exactly the one b-tree |
| `BtMutex.BtreeMutexArray.Enter` | Windows/libsqlite/btmutex.c:300-321 | given that nothing larger is held, every member is wanted once more, waiting upwards only |
| `BtMutex.BtreeMutexArray.Leave` | Windows/libsqlite/btmutex.c:326-342 | undoes the enter of the array |
| `BtMutex.ArrayOrder` | Windows/libsqlite/btmutex.c:300-321 | a sorted array waits upwards only if and only if no held mutex is larger than one it still has to lock |
| `BtMutex.WaitChain` | Windows/libsqlite/btmutex.c:108-123 | connections that wait inside the blocking call for a mutex of one another form no cycle: along a chain of them the addresses grow |
| `BtMutex.NoDeadlock` | Windows/libsqlite/btmutex.c:108-123 | if some connection waits inside the blocking call, then some connection has a mutex that is waited for and does not wait itself |
| `BtThreads.StepInv` | Windows/libsqlite/btmutex.c:67-124 | every interleaved step of enter, leave, enter-all and array calls of any number of connections keeps the invariant on what each has locked |
| `BtThreads.WaitsUpwards` | Windows/libsqlite/btmutex.c:108-123 | in every reachable state a waiting connection has only smaller mutexes, and one outside its calls has exactly those of the b-trees it wants |
| `BtThreads.WantedAsEntered` | Windows/libsqlite/btmutex.c:67-137 | in every reachable state a connection outside its calls wants each b-tree exactly as often as it has been entered and not left |
| `BtThreads.AdvanceIsAStep` | Windows/libsqlite/btmutex.c:90-123 | the progress test is exactly the existence of a next step of the call |
| `BtThreads.AloneUpwards` | Windows/libsqlite/btmutex.c:67-124 | threads that use one connection each wait upwards by themselves |
| `BtThreads.NeverStuck` | Windows/libsqlite/btmutex.c:108-123 | where every wait is upwards over all connections of its thread, a wait implies that some connection can take its next step or a thread in no call has a mutex that is waited for |
| `BtThreads.OppositeOrder` | Windows/libsqlite/backup.c:596-597 | two threads that each enter a b-tree of one connection and then one of another, in opposite order, reach a state in which no step is possible |
| `Complete.WsIgnored` | Windows/libsqlite/complete.c:112-123 | spaces and comments never change the state |
| `Complete.RunOpening` | Windows/libsqlite/complete.c:112-123 | before its first semicolon the state says exactly how a statement opens |
| `Complete.TriggerRun` | Windows/libsqlite/complete.c:112-123 | inside a trigger the table gets back to START exactly at the first SEMI END SEMI |
| `Complete.StatementIsShortest` | Windows/libsqlite/complete.c:112-123 | a statement of the grammar is the same as a shortest run of the table back to START |
| `Complete.TableIsGrammar` | Windows/libsqlite/complete.c:112-123 | the table accepts exactly the non-empty sequences of statements |
| `CompleteText.NextToken` | Windows/libsqlite/complete.c:137-249 | the switch of the pass finds the token that the pure tokenisation describes |
| `CompleteText.KeywordAt` | Windows/libsqlite/complete.c:201-241 | the switch on the first letter and the lengths recognises exactly the keywords, in any case |
| `CompleteText.SqlComplete` | Windows/libsqlite/complete.c:137-253 | for every text the one pass returns 1 if and only if no quote, bracket or block comment is left open and the other tokens are a non-empty sequence of statements |
| `CompleteScan.ScanDecides` | Windows/libsqlite/complete.c:137-253 | a text is complete exactly when a scan of its single characters, without looking ahead, ends in START with nothing open |
| `CompleteScan.AllTaken` | Windows/libsqlite/complete.c:137-252 | that scan goes through the states that the tokens give, for any table that ignores spaces |
| `CompleteScan.SpaceIgnored` | Windows/libsqlite/complete.c:143-150 | a space at the end of any text changes nothing |
| `CompleteScan.BlockCommentIsSpace` | Windows/libsqlite/complete.c:151-162 | outside of comments, quotes and brackets a closed block comment may be replaced by a space, whatever follows |
| `CompleteScan.LineCommentIsSpace` | Windows/libsqlite/complete.c:163-172 | so may a line comment with its newline, if it is not behind a single dash |
| `CompleteScan.LastBlockIgnored` | Windows/libsqlite/complete.c:151-162 | at the end of such a text a closed block comment changes nothing |
| `CompleteScan.LastLineIgnored` | Windows/libsqlite/complete.c:168-169 | nor does a line comment, with or without an end |
| `CompleteScan.QuoteIsOther` | Windows/libsqlite/complete.c:173-189 | a closed quote or bracket may be replaced by any character without a meaning, whatever is in it |
| `CompleteScan.UnclosedIsIncomplete` | Windows/libsqlite/complete.c:158-186 | nothing with a quote, bracket or block comment left open is complete |
| `CompleteScan.CaseIgnored` | Windows/libsqlite/complete.c:201-241 | letter case never matters |
| `CompleteEnds.EndsWithSemicolon` | Windows/libsqlite/complete.c:253 | every complete text has a semicolon outside of comments, quotes and brackets, with nothing but spaces and comments behind it |
| `CompleteEnds.SemicolonDecides` | Windows/libsqlite/complete.c:112-123 | a text without the word TRIGGER is complete if and only if it ends so |
| `CompleteEnds.TriggerNeedsEnd` | Windows/libsqlite/complete.c:112-123 | a text that begins with CREATE TRIGGER, CREATE TEMP TRIGGER or CREATE TEMPORARY TRIGGER, perhaps behind EXPLAIN, in any case and with any spaces and comments, is complete only behind a semicolon, the word END and a semicolon |
| `CompleteEnds.TriggerEnds` | Windows/libsqlite/complete.c:112-123 | and it is complete when those three come first in it, and only spaces and comments follow |

## Left out

- Win32 calls: Interlocked operations, events, kernel semaphores and critical sections are single steps with their documented effect; memory fences and failures of kernel calls are not modelled, but for ReleaseSemaphore in posts.
- The NEED_SEM variant of the semaphore: it is not compiled in the shipped configuration.
- Static initialisers, invalid pointers and attribute objects: single branches before the protocols begin.
- Cancellation is the free choice of leaving a wait; its delivery by suspended threads, changed contexts or exceptions is not part of this model.
- The user's mutex around a wait: `pthread_cond_wait` releases it before it queues and takes it again after its cleanup, which involves no other shared state of the condition variable.
- Destroying a condition variable: the error returns that leave the list lock held, and the list of all condition variables.
- MCS nodes are fresh for every acquisition: release does not wait for a late write of nextFlag when it already sees a successor, so the code does not support reusing a node at once.
- tryrdlock and timedrdlock: near copies of rdlock; the timeout of the latter changes the completed count outside its mutex.
- More threads than the barrier's height: the code does not support that.
- TsdExit.CallUserDestroyRoutines: threads and keys that come into use during the exit are known from the start with empty lists, and a destructor's use of a key it deleted before does nothing.
- TsdExit.SomeStep: another thread's key deletion is one step or single removals in any order, not both locks step by step.
- Tsd.KeyDelete: the release of the system's slot and of the key's memory.
- Detach.StepInv: a thread that joins itself, and a wait or lock that fails: each is one early return.
- Reuse.Pool.Pop: the sentinel (ptw32_thread_t *) 1 for an empty end is null here.
- Bitvec.Bitvec.Set: the union's three members are three arrays; only the layout of 512 bytes is modelled; the descent loop is a recursion, since the set of every node on the way is updated.
- Bitvec.Bitvec.Clear: numbers so far above iSize that they lie beyond the bitmap or the child array are excluded; the source does not check for them.
- BitvecCalls.Returns: this model tells whether calls return and leaves out failing allocations; which set they leave is proved of the class Bitvec.
- Bitvec.BuiltinTest: the program is a list of single set, clear and fault instructions, without the decoding of repeated and random ones.
- OnlineBackup.Backup.Step: an error while a page is read, written or committed is fatal; were it SQLITE_BUSY or SQLITE_LOCKED in the first step, iNext would have moved on for a backup that is not attached, and later writes would go unreported.
- OnlineBackup.Backup.SourceWrite: one backup per source; the list of attached backups is walked in the same way for each.
- OnlineBackup.DestTruncate: the product in the branch for large source pages is not bounded to 32 bits.
- BtMutex.Connection.Enter: BtShared.db and the mutex of the connection itself.
- BtMutex.NoDeadlock: one thread for each connection; threads with several are in BtThreads.
- BtThreads.NeverStuck: the mutexes of the connections themselves, which the backup functions also take two of, are not part of it.
- sqlite3_complete16: it converts the text and calls the function modelled.
- Everything else in the two libraries, the demos, libjpeg, libpng and MacOSX: interfaces, input and output, and thin wrappers.
