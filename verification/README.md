# Nachos in Dafny

A model of the parts of the Nachos teaching kernel in which the hard invariants live, with proofs. `dafny verify dfyconfig.toml` checks the whole project.

**The sector file system** (`Bytes`, `Bitmap`, `Disk`, `FileHeader`, `OpenFile`, `PersistentBitmap`, `Directory`, `FsLayout`, `FsOps`, `FsTheorems`, `FileSystem`, `FsRuns`). A disk image is a sequence of 1024 sectors of 128 bytes. The free-sector bitmap and the directory are files on that same disk, so "the bitmap marks exactly the sectors in use" speaks about bytes that lie in sectors the bitmap itself must mark. The classes follow the code: they fetch a structure from the disk, change it in place and write it back, and each method is proved equal to a function from disk image to disk image (`FormatImage`, `CreateImage`, `RemoveImage`, `WriteCall`). The theorems are about those functions. `FsRuns` puts them together: every run of Create, Remove, Open, Write and remount after a format refines a machine whose state is a map from nine-character names to byte strings.

**The synchronization stack** (`Semaphore`, `Lock`, `SynchList`, `SynchDisk`, `Scheduler`). Each layer is a step system: a state, the steps that threads and interrupt handlers take between two points at which a context switch may occur, and an invariant that every step keeps. The steps are the regions in which interrupts are off, so the release of a lock and the sleep that follows it, or the P of a lock and the recording of its holder, are different steps. The theorems hold for every interleaving of any number of threads.

**Clock, interrupts and disk timing** (`Interrupt`, `DiskTiming`). The pending queue, the firing loop, the tick counters and the devices that schedule from their handlers; and the seek, rotation and track-buffer arithmetic, with the position of the platter and of the head as the independent reference.

**Machine arithmetic** (`Multiply`, `WordMerge`, `Machine`, `Processor`). The shift-add multiplication, and the unaligned loads and stores with the load delay slot over address translation. The branches are those compiled with `SIM_FIX`; words are 32 bits and wrap around.

**Containers** (`List`, `HashTable`, with `Sequences`, `Sums` and `Wrappers` for what several parts share). Linked lists with a tail pointer and a count, sorted insertion, and the self-expanding hash table with its iterator.

## What the code turns out to do

- A write zero-fills what lies past the end of the file in the sectors it touches (`filesys/openfile.cc:165`). No file that exists at the time of the write shows it; a larger file created later in a freed sector may.
- With files of at most 3840 bytes, ten files of 31 sectors never fill the disk, so Create fails for lack of space in no reachable state: it succeeds exactly if the name is new and there are fewer than ten files (`FsTheorems.CreateSucceedsOnFiles`).
- A read can be a track-buffer hit while its sector is still passing under the head: the test counts up to the first sector boundary at or after the request. `DiskTiming.HitWhilePassing` gives a request for which this happens, `DiskTiming.HitAtRequestIff` says exactly when it does, and `DiskTiming.PassedByTheEnd` that the sector has passed by the time the request ends.
- SWL and SWR read their register without regard to a pending load. If a load into that register is pending before SWL, the bytes that SWR writes are those of the value loaded. So an aligned pair stores the new value, and an unaligned pair may store a mixture of the two: `Machines.PairStoresMixture` gives a machine on which it does, and `Machines.PairStoresWordIff` says exactly when the pair stores what the register held before it.

## Preconditions taken from the code

- `FileSystem::Create` is called with sizes up to `MaxFileSize`: `FileHeader::Allocate` does not compare the number of sectors with the size of its array.
- File positions are not negative, and position plus length does not overflow an integer.
- A file handle is used only while its file exists; `Remove` does not invalidate handles.
- Locks are released by the thread that acquired them, and an item appended to a list is not on it already, as the code asserts.
- For the unaligned pairs, the load that is pending, if any, leaves the base register with its value, and the register loaded is neither register 0 nor the base.

## Model

| member | source | states |
|---|---|---|
| Bytes.OrBits | lib/bitmap.cc:56-63 | bit k of the bitwise or of a and b is set exactly if it is set in a or in b |
| Bytes.AndBits | lib/bitmap.cc:90-99 | bit k of the bitwise and of a and b is set exactly if it is set in both |
| Bytes.ComplementBits | lib/bitmap.cc:73-80 | the complement of w has exactly the bits that w does not have |
| Bytes.WordsRoundTrip | filesys/pbitmap.cc:63-79 | the words of a bitmap are read back from the bytes they are written as |
| Bytes.IntsRoundTrip | filesys/filehdr.cc:110-142 | signed integers are read back from the bytes they are written as |
| Bitmaps.TestMark | lib/bitmap.cc:56-63 | marking a bit at word level sets that bit and leaves every other as it was |
| Bitmaps.TestClear | lib/bitmap.cc:73-80 | clearing a bit clears that bit and leaves every other as it was |
| Bitmaps.MarkedMark | lib/bitmap.cc:56-63 | as a set of marked items, Mark adds one element |
| Bitmaps.MarkedClear | lib/bitmap.cc:73-80 | as a set of marked items, Clear removes one element |
| Bitmaps.CountClearIsComplement | lib/bitmap.cc:129-139 | the number of clear bits and the size of the marked set add up to the number of bits |
| Bitmaps.MarkedDetermines | lib/bitmap.cc:56-99 | two bitmaps that mark the same set are equal word for word |
| Bitmaps.FirstClear | lib/bitmap.cc:111-120 | the least clear item, or -1 exactly if there is none |
| Bitmaps.Bitmap.constructor | lib/bitmap.cc:21-36 | a new bitmap marks nothing |
| Bitmaps.Bitmap.MarkBit | lib/bitmap.cc:56-63 | in place, the words become those of Mark |
| Bitmaps.Bitmap.ClearBit | lib/bitmap.cc:73-80 | in place, the words become those of Clear |
| Bitmaps.Bitmap.TestBit | lib/bitmap.cc:90-99 | true exactly if the item is marked |
| Bitmaps.Bitmap.FindAndSet | lib/bitmap.cc:111-120 | returns and marks the least clear item, or returns -1 and changes nothing if all are marked |
| Bitmaps.Bitmap.NumClear | lib/bitmap.cc:129-139 | the number of clear items |
| PersistentBitmaps.Fetch | filesys/pbitmap.cc:38-44 | the words of the new bitmap are those stored in the file, and zero where the file does not reach |
| PersistentBitmaps.WriteBack | filesys/pbitmap.cc:76-79 | the bitmap file on disk becomes the words in memory, and no other sector changes |
| SectorDisk.SynchDisk.ReadSector | filesys/synchdisk.cc:58-64 | a call made alone returns the contents of the sector |
| SectorDisk.SynchDisk.WriteSector | filesys/synchdisk.cc:76-82 | a call made alone changes that sector and no other |
| FileHeaders.HeaderRoundTrip | filesys/filehdr.cc:110-142 | a header of 128 bytes is read back as it was written |
| FileHeaders.TakeMarks | filesys/filehdr.cc:70-84 | taking k clear sectors one by one gives k distinct sectors, none marked before, and marks exactly those |
| FileHeaders.ClearBitLeft | filesys/filehdr.cc:74-82 | after the NumClear test the search for a clear sector never fails |
| FileHeaders.ClearAllUnmarks | filesys/filehdr.cc:94-100 | Deallocate unmarks exactly the file's sectors |
| FileHeaders.FileHeader.Allocate | filesys/filehdr.cc:70-84 | succeeds exactly if enough sectors are clear, and then records and marks the least clear ones; otherwise the bitmap is unchanged |
| FileHeaders.FileHeader.Deallocate | filesys/filehdr.cc:94-100 | clears the bit of each data sector |
| FileHeaders.FileHeader.FetchFrom | filesys/filehdr.cc:110-119 | the header becomes the one stored in the sector |
| FileHeaders.FileHeader.WriteBack | filesys/filehdr.cc:129-142 | the sector holds the encoded header, and no other sector changes |
| FileHeaders.ByteToSector | filesys/filehdr.cc:155-158 | the sector that holds a byte of the file is one of its data sectors and lies on the disk |
| FileHeaders.SameSectorIff | filesys/filehdr.cc:155-158 | two bytes of a file are in the same sector exactly if they are in the same block of 128 |
| OpenFiles.WriteReplaces | filesys/openfile.cc:145-186 | the write of whole sectors replaces exactly the bytes asked for, and touches only the file's data sectors |
| OpenFiles.CallReplaces | filesys/openfile.cc:145-186 | the same for any request, clipped at the length of the file |
| OpenFiles.Filled | filesys/openfile.cc:163-180 | reading only the partial first and last sectors is enough for the buffer to hold the new contents |
| OpenFiles.ChunkedWrite | filesys/openfile.cc:82-87 | sequential Writes in any chunking are one write of all the bytes, clipped, and leave every sector outside the file as it was |
| OpenFiles.ChunkedRead | filesys/openfile.cc:74-79 | sequential Reads in any chunking are one read of the whole range, clipped |
| OpenFiles.ChunkedRoundTrip | filesys/openfile.cc:73-87 | for every position, chunking and total length, what is read back is the bytes written as far as they fit into the file, and then what was there before |
| OpenFiles.OpenFile.constructor | filesys/openfile.cc:29-34 | the file has the header stored in the sector and position 0 |
| OpenFiles.OpenFile.Seek | filesys/openfile.cc:55-58 | only the position changes |
| OpenFiles.OpenFile.ReadAt | filesys/openfile.cc:116-142 | returns the bytes of the file in the range, clipped at its length |
| OpenFiles.OpenFile.WriteAt | filesys/openfile.cc:145-186 | the disk becomes the one with the bytes replaced; the result is the clipped length |
| OpenFiles.OpenFile.Read | filesys/openfile.cc:74-79 | reads at the position and advances it by what was read |
| OpenFiles.OpenFile.Write | filesys/openfile.cc:82-87 | writes at the position and advances it by what was written |
| Directories.StrnEqualIsKeyEquality | filesys/directory.cc:94-100 | comparing nine characters is equality of the first nine characters up to the end of the string |
| Directories.StoredNameIsKey | filesys/directory.cc:133-146 | the name stored by Add has the key of the name given |
| Directories.StoredNameIsTerminated | filesys/directory.cc:133-146 | a field that ended with a zero still does, and the whole string in it is the key of the name |
| Directories.EntryRoundTrip | filesys/directory.cc:67-83 | an entry is read back from its 20 bytes |
| Directories.TableRoundTrip | filesys/directory.cc:67-83 | the table of ten entries is read back from its bytes |
| Directories.IndexOf | filesys/directory.cc:94-100 | the first entry in use with the key, or -1 exactly if there is none |
| Directories.FreeIndex | filesys/directory.cc:138-145 | the first entry not in use, or -1 exactly if there is none |
| Directories.Directory.FetchFrom | filesys/directory.cc:67-70 | the bytes of the table that the file covers become those of the file, the others stay |
| Directories.Directory.WriteBack | filesys/directory.cc:80-83 | the directory file becomes the table, and no other sector changes |
| Directories.Directory.FindIndex | filesys/directory.cc:94-100 | the index of the entry with the name's key, or -1 |
| Directories.Directory.Find | filesys/directory.cc:112-119 | the header sector of that entry, or -1 |
| Directories.Directory.Add | filesys/directory.cc:133-146 | fails, changing nothing, exactly if the key is present or the table is full; otherwise fills the first free entry |
| Directories.Directory.Remove | filesys/directory.cc:157-165 | fails, changing nothing, exactly if the key is absent; otherwise frees that entry |
| FsLayout.SavedTable | filesys/directory.cc:80-83 | after the directory is saved the table on disk is the one saved |
| FsLayout.SavedWords | filesys/pbitmap.cc:76-79 | after the bitmap is saved the bitmap on disk is the one saved |
| FsTheorems.FormatEffect | filesys/filesys.cc:81-136 | formatting any disk leaves it well formed, with no files |
| FsTheorems.SectorsConserved | filesys/filesys.cc:185-224 | on a well-formed disk the clear sectors, the 5 of the system and one plus the data sectors of each file add up to 1024 |
| FsTheorems.SpaceNeverShort | filesys/filesys.cc:196-213 | while an entry is free, ten files of at most 30 data sectors never fill the disk |
| FsTheorems.CreateSucceedsIff | filesys/filesys.cc:185-224 | Create succeeds exactly if the key is absent, an entry is free and enough sectors are clear; when it fails the disk is unchanged byte for byte |
| FsTheorems.CreateSucceedsOnFiles | filesys/filesys.cc:185-224 | so it succeeds exactly if the key is absent and there are fewer than ten files |
| FsTheorems.CreateEffect | filesys/filesys.cc:185-224 | Create keeps the disk well formed and adds one file of the size asked for; every other file keeps its bytes |
| FsTheorems.RemoveSucceedsIff | filesys/filesys.cc:286-315 | Remove succeeds exactly if the key is present; when it fails the disk is unchanged |
| FsTheorems.RemoveEffect | filesys/filesys.cc:286-315 | Remove keeps the disk well formed and deletes that one file |
| FsTheorems.CreateThenRemove | filesys/filesys.cc:185-315 | after Create, Remove of the same name succeeds and gives back the same files |
| FsTheorems.CreateThenRemoveBits | filesys/filesys.cc:185-315 | and gives back the bitmap bit for bit and the directory as a map |
| FsTheorems.WriteEffect | filesys/openfile.cc:145-186 | a write to a listed file keeps the disk well formed, the directory and the bitmap, and changes the bytes of that file only |
| FileSystems.FileSystem.constructor | filesys/filesys.cc:81-143 | formatting gives the empty disk image; mounting changes nothing |
| FileSystems.FileSystem.Create | filesys/filesys.cc:185-224 | result and disk are those of CreateImage, about which the theorems above speak |
| FileSystems.FileSystem.Open | filesys/filesys.cc:237-251 | null exactly if the key is absent; otherwise a file at position 0 whose bytes are those of the key |
| FileSystems.FileSystem.Remove | filesys/filesys.cc:286-315 | result and disk are those of RemoveImage |
| FsRuns.StepRefines | filesys/filesys.cc:185-315 | every operation keeps the invariant and is a step of the machine on a map from names to byte strings |
| FsRuns.HandleReads | filesys/filesys.cc:237-251 | a handle of a file that still exists reads that file's current bytes |
| FsRuns.RunRefines | filesys/filesys.cc:81-315 | every run of Create, Remove, Open, Write and remount refines that machine |
| FsRuns.FormattedRunConsistent | filesys/filesys.cc:81-315 | in every state of every run after format, the bitmap marks exactly the disjoint sectors in use, names are unique and sectors are conserved |
| Semaphores.Semaphore.Attempt | threads/synch.cc:76-92 | one turn of the loop: pass and take one, or join the end of the queue |
| Semaphores.Semaphore.V | threads/synch.cc:103-117 | adds one and takes the first thread, if any, off the queue |
| SemaphoreRuns.StepKeeps | threads/synch.cc:76-117 | every step keeps the invariant of value, queue and woken threads |
| SemaphoreRuns.ValueAccounts | threads/synch.cc:76-117 | in every run the value is the initial value plus completed V's minus completed P's, and at most the woken threads while any thread sleeps |
| SemaphoreRuns.NoLostWakeup | threads/synch.cc:76-117 | while a thread sleeps and the value is positive, a woken thread is about to pass |
| SemaphoreRuns.FirstAsleepFirstWoken | threads/synch.cc:76-117 | in every run the threads woken and then those in the queue are the threads that went to sleep, in that order: the k-th wakeup is for the k-th sleeper |
| Locks.StepKeeps | threads/synch.cc:181-203 | every step of Acquire and Release keeps the invariant, also between P and the recording of the holder |
| Locks.MutualExclusion | threads/synch.cc:181-203 | in every run the threads between P and V plus the value is one, and the recorded holder is nobody or the one thread inside |
| Locks.ReleaseAssertionHolds | threads/synch.cc:198-203 | a client that releases what it acquired never fails the assertion |
| Locks.SleeperHasCause | threads/synch.cc:181-203 | a thread sleeps on the lock only while another is inside or has been woken and will try again |
| SynchLists.StepKeeps | threads/synchlist.cc:53-81 | every step of producers and consumers keeps the invariant of list, lock, condition queue and waiters' semaphores |
| SynchLists.FifoExactlyOnce | threads/synchlist.cc:53-81 | under every interleaving the k-th RemoveFront to return brings back the item of the k-th Append to get the lock; what is not delivered yet is with the one consumer leaving, on the list, or with the producer that has the lock, in that order |
| SynchLists.StepStaysOrderly | threads/synchlist.cc:53-81 | every step keeps the order in which producers got the lock, items went on and off the list, and calls returned |
| SynchLists.NoDeadlock | threads/synchlist.cc:53-81 | in every reachable state with a call under way some call can go on, unless all of them wait to be signalled and the list is empty, or a producer brought an item that is on the list |
| SynchLists.StepDecreases | threads/synchlist.cc:53-81 | every step but the beginning of a call brings a measure of the steps left down; a producer pays for the consumer it sends through the test again |
| SynchLists.EveryCallReturns | threads/synchlist.cc:53-81 | under any scheduling no run takes more than 20 steps for an Append and 9 for a RemoveFront, and when no step is left every call has returned but for consumers waiting on an empty list, unless the list refused an item |
| SynchLists.NoLostSignal | threads/synch.cc:244-283 | when the lock is free and consumers wait for a signal, the list is no longer than the number of signalled consumers yet to test it, and none of those is asleep |
| SynchLists.FirstWaitingFirstSignalled | threads/synch.cc:244-283 | in every run consumers are signalled in the order in which they began to wait |
| SynchLists.SleeperIsAwaited | threads/synch.cc:244-283 | a consumer sleeps only while it is on the condition queue or about to be posted |
| SynchLists.AssertionsHold | threads/synch.cc:244-283 | the lock is held by the caller of Wait and Signal, and the list is not empty when an item is taken |
| SynchDisks.StepKeeps | filesys/synchdisk.cc:58-94 | every step of callers, lock, semaphore and disk interrupt keeps the invariant |
| SynchDisks.OneRequestAtATime | machine/disk.cc:114-163 | the raw disk's assertion never fires, an interrupt is pending exactly while it is active, the semaphore counts at most one, and a caller sleeps only while its interrupt is to come |
| SynchDisks.ReturnsAfterOwnInterrupt | filesys/synchdisk.cc:58-94 | a call returns only after the interrupt of its own request |
| SynchDisks.ReadsLastWrite | filesys/synchdisk.cc:58-82 | under every interleaving the k-th call to return is the k-th that got the lock, and brings back the last data written to its sector by the calls that got the lock before it; at most one call has the lock and has not returned |
| SynchDisks.StepStaysOrderly | filesys/synchdisk.cc:58-94 | every step keeps the orders in which calls got the lock, made their requests and returned in line |
| SynchDisks.NoDeadlock | filesys/synchdisk.cc:58-94 | in every reachable state with a call under way some call can go on or the disk interrupts |
| SynchDisks.StepDecreases | filesys/synchdisk.cc:58-94 | every step but the beginning of a call brings a measure of the steps left down, also when a woken caller finds the lock taken again |
| SynchDisks.EveryCallReturns | filesys/synchdisk.cc:58-94 | under any scheduling no run takes more than twelve steps a call, and when no step is left every call that began has returned |
| Schedulers.Scheduler.ReadyToRun | threads/scheduler.cc:57-64 | the thread is ready and last on the list |
| Schedulers.Scheduler.FindNextToRun | threads/scheduler.cc:75-84 | takes the first thread off the list, if there is one |
| Schedulers.Scheduler.Run | threads/scheduler.cc:104-137 | up to SWITCH: the next thread is current and running, a finishing one is recorded for deletion |
| Schedulers.Scheduler.CheckToBeDestroyed | threads/scheduler.cc:161-167 | the recorded thread is gone and the record is empty |
| Schedulers.Scheduler.YieldThread | threads/thread.cc:201-216 | is the Yield step of the state machine |
| Schedulers.Scheduler.SwitchFromSleep | threads/thread.cc:248-255 | is the Pick step, and the assertion in Run holds |
| Schedulers.StepKeeps | threads/scheduler.cc:57-167 | every step keeps the invariant of places and statuses |
| Schedulers.PickKeeps | threads/thread.cc:239-256 | so does the switch out of Sleep, also to the sleeping thread itself |
| Schedulers.ExactlyOnePlace | threads/scheduler.cc:57-167 | at every completed switch each thread is in exactly one place, with the status of that place, and in no list twice |
| Schedulers.FinishedStaysFinished | threads/thread.cc:171-179 | a finished thread is never current or ready again |
| Schedulers.FirstReadyFirstRun | threads/scheduler.cc:57-84 | in every run threads get the processor in exactly the order in which they became ready |
| Schedulers.TurnSwitches | threads/thread.cc:201-216 | a Yield while a thread is ready, and every Pick, does switch, to the front of the ready list |
| Schedulers.NoStarvation | threads/thread.cc:201-256 | the thread at position k of the ready list is the (k+1)-th to run, at the latest at the (k+1)-th Yield or Pick |
| Schedulers.ForkedThreadRuns | threads/thread.cc:92-105 | a thread created and forked runs right after those that were ready before it |
| Schedulers.FirstAsleepFirstWoken | threads/synch.cc:76-117 | the threads on a wait queue are made ready in the order in which they went to sleep on it |
| Schedulers.DestructionIsSafe | threads/scheduler.cc:110-113 | nothing is recorded for deletion when a finishing Run begins, and the thread deleted is never the current one |
| Schedulers.SelfPick | threads/thread.cc:239-256 | a thread that picks itself goes on running, and nothing is deleted |
| Interrupts.EnqueuedIsInserted | lib/list.cc:234-260 | the queue of pending interrupts is a sorted list in the sense of Lists.Inserted |
| Interrupts.FireShrinksDue | machine/interrupt.cc:356-363 | each handler leaves one interrupt fewer due, because it schedules strictly in the future |
| Interrupts.DrainFiresDue | machine/interrupt.cc:323-365 | one call fires exactly what is due when it starts, in the order of the queue, takes no time and leaves nothing due |
| Interrupts.DrainAsks | threads/alarm.cc:46-55 | the firing loop leaves a yield asked for exactly if one was before, or a timer interrupt was due and the machine is not idle |
| Interrupts.AsksToYieldIff | machine/interrupt.cc:148-176 | a tick asks for a switch exactly if one was asked for before or a timer interrupt fired at it and the machine is not idle; it leaves no request behind, and adds to the ready threads those woken by the disk, the console output and a key |
| Interrupts.IdleAsksNothing | threads/alarm.cc:46-55 | idling never asks for a switch, and ends in system mode if the machine goes on |
| Interrupts.FireLeaves | machine/timer.cc:53-82 | a handler schedules another interrupt exactly for the timer while it is on and for the keyboard without a key, 100 ticks ahead, or 1 to 200 for the random timer |
| Interrupts.AnyDelay | machine/timer.cc:70-82 | each delay from 1 to 200 is possible for the random timer |
| Interrupts.DrainWakes | machine/interrupt.cc:356-363 | the threads made ready are those woken by the interrupts that were due |
| Interrupts.DrainLeaves | machine/interrupt.cc:356-363 | everything the handlers schedule is of the kinds and in the reach of FireLeaves, and while the timer is on as many timer interrupts are pending after the loop as before |
| Interrupts.CalledIff | machine/interrupt.cc:323-365 | the result says whether any handler was called |
| Interrupts.StepKeeps | machine/interrupt.cc:124-365 | every event keeps the invariant of clock, queue and history |
| Interrupts.EveryRunIsWellRun | machine/interrupt.cc:148-365 | in every run interrupts fire in order of time and of scheduling, never early and less than a system tick late, each one scheduled is pending or fired once, nothing due is left, and the clock is idle plus system plus user ticks |
| Interrupts.EveryRequestFires | machine/interrupt.cc:299-365 | in every run an interrupt that was requested is pending until its time and has fired once the clock is there |
| Interrupts.TimerGoesOn | machine/timer.cc:53-82 | in every run until PrepareToEnd exactly one timer interrupt is pending |
| Interrupts.TicksCounted | machine/interrupt.cc:148-160 | in every run the system ticks are ten for each tick taken in system mode, and the user ticks the number of the others |
| Interrupts.QuietIdle | machine/interrupt.cc:208-230 | after PrepareToEnd one Idle uses up at least one pending interrupt and adds none |
| Interrupts.IdleLoopEnds | threads/thread.cc:248-253 | the idle loop ends with a ready thread, or halts with none and nothing pending |
| Interrupts.NextRequest | machine/timer.cc:70-81 | what a device schedules from its handler is in the future, and nothing when timer and console are off |
| Interrupts.Interrupt.Schedule | machine/interrupt.cc:299-308 | the queue gains the interrupt behind those for the same time |
| Interrupts.Interrupt.CallBack | machine/console.cc:66-100 | the handlers of timer, console and disk: what they schedule, whom they wake, and the request to yield |
| Interrupts.Interrupt.CheckIfDue | machine/interrupt.cc:323-365 | result and state are those of Checked, and the firing loop ends |
| Interrupts.Interrupt.OneTick | machine/interrupt.cc:148-176 | 10 or 1 ticks are added to the right counters, what is due fires, and a switch is asked for exactly if a handler asked for one |
| Interrupts.Interrupt.SetLevel | machine/interrupt.cc:124-136 | enabling interrupts costs one tick, with the switch it may ask for; otherwise only the level changes |
| Interrupts.Interrupt.Idle | machine/interrupt.cc:208-230 | advances to the next interrupt and fires, or reports that there is none |
| Interrupts.Interrupt.WaitForThread | threads/thread.cc:248-253 | the loop of Sleep, proved to end |
| DiskTiming.FirstPass | machine/disk.cc:200-206 | ModuloDiff is the number of sector times to the first moment the sector begins under the head |
| DiskTiming.EndsAfterFirstPass | machine/disk.cc:230-250 | without a buffer hit the request ends one sector time after the first moment, at or after the seek, at which the sector begins under the head |
| DiskTiming.HitIffPassed | machine/disk.cc:237-244 | a read is a buffer hit exactly if no seek is needed and the whole sector passed between the start of buffering and the first boundary at or after the request |
| DiskTiming.HitWhilePassing | machine/disk.cc:237-244 | a hit can be reported while the sector is still passing at the time of the request |
| DiskTiming.HitAtRequestIff | machine/disk.cc:237-244 | a hit is reported before the sector has passed exactly if no seek is needed, the request comes between two boundaries, and it is for the sector then under the head on its first pass since buffering began |
| DiskTiming.PassedByTheEnd | machine/disk.cc:230-250 | when a request ends, the whole sector has passed since buffering began |
| DiskTiming.LatencyBounds | machine/disk.cc:230-250 | the latency is between 500 and 31999 |
| DiskTiming.LatencyBoundsMet | machine/disk.cc:230-250 | both bounds are reached |
| DiskTiming.EveryRequestFindsReady | machine/disk.cc:259-268 | in every run the last sector is the one last requested, and the buffer starts at the first sector boundary from which on the head has stayed on its track, never in the future when a request comes |
| DiskTiming.StepKeeps | machine/disk.cc:259-268 | every request, whether it moves the head or not, keeps the start of the buffer at the beginning of the present stay of the head |
| DiskTiming.HitIffPassedOnTrack | machine/disk.cc:222-244 | in every run a request is a buffer hit exactly if it is a read and its sector passed, up to the next boundary, while the head has stayed on its track; a hit takes 500 ticks |
| DiskTiming.EveryRequestEnds | machine/disk.cc:159-163 | a request under way can be completed at the time its interrupt is set for, and leaves the disk ready |
| DiskTiming.Disk.TimeToSeek | machine/disk.cc:177-191 | seek time and the rest of the current sector |
| DiskTiming.Disk.ComputeLatency | machine/disk.cc:230-250 | the latency the theorems speak about |
| DiskTiming.Disk.UpdateLast | machine/disk.cc:259-268 | the last sector, and a new start of buffering exactly after a seek |
| DiskTiming.Disk.Request | machine/disk.cc:114-151 | the delay scheduled is positive and is the latency; the disk becomes active |
| Multiply.AddPair | machine/mipssim.cc:800-804 | addition with the carry found by comparison is exact if the sum fits 64 bits |
| Multiply.ShiftPair | machine/mipssim.cc:808-812 | the shift doubles the value if it fits |
| Multiply.NegatePair | machine/mipssim.cc:818-824 | the two's complement of 64 bits |
| Multiply.TurnsMultiply | machine/mipssim.cc:799-814 | any number of turns, with the early exit, adds the remaining multiplier times the shifted multiplicand |
| Multiply.Product | machine/mipssim.cc:795-814 | the loop computes the exact product of the unsigned operands although the multiplier is shifted arithmetically |
| Multiply.Mult | machine/mipssim.cc:771-828 | for all operands hi and lo are the exact signed or unsigned product of 64 bits |
| WordMerge.LowMask | machine/mipssim.cc:352-359 | a mask of k ones is the remainder modulo 2 to the k |
| WordMerge.LoadBytes | machine/mipssim.cc:341-410 | which bytes of the register LWL and LWR take from memory, and which they keep |
| WordMerge.StoreBytes | machine/mipssim.cc:581-655 | which bytes of memory SWL and SWR take from the register, and which they keep |
| Machines.Translate | machine/translate.cc:185-250 | a physical address lies in memory, in the frame of the entry found, and has the offset of the virtual one |
| Machines.FindsFirst | machine/translate.cc:218-222 | the search of the TLB finds the first valid entry for the page, or there is none |
| Machines.PhysicalIff | machine/translate.cc:185-250 | an address has a physical one exactly if it is aligned and the entry for its page allows the access and has a frame of memory; it is in that frame at the same offset |
| Machines.FaultIff | machine/translate.cc:194-242 | the exact condition of each of the four exceptions |
| Machines.SharedByteIff | machine/translate.cc:246-246 | two virtual bytes share a physical one exactly if their entries share a frame and their offsets agree |
| Machines.OtherFramesKept | machine/translate.cc:246-246 | a word written within a page leaves every page with another frame as it was |
| Machines.LoadMarks | machine/translate.cc:243-245 | a load marks the entry of its page as used and changes no other |
| Machines.StoreMarks | machine/translate.cc:243-245 | a store marks the entry of its page as used and dirty and changes no other; one that traps on a read-only page marks it as used |
| Machines.SameTranslation | machine/translate.cc:243-246 | use and dirty bits do not change any translation |
| Machines.WordInPage | machine/translate.cc:185-250 | the bytes of an aligned word are translated to consecutive addresses |
| Machines.StoreTrapsIff | machine/mipssim.cc:552-668 | for the sum of base register and offset in 32 bits: SWL and SWR trap exactly if the aligned word cannot be written, and then only the pending load takes effect |
| Machines.LoadTrapsIff | machine/mipssim.cc:312-418 | for the sum of base register and offset in 32 bits: LWL and LWR trap exactly if the aligned word cannot be read, and then only the pending load takes effect |
| Machines.StoreUnaligned | machine/mipssim.cc:552-668 | SWL at a+3 and SWR at a, the sum of base register and offset in 32 bits, with or without an interrupt in between, write exactly the bytes a to a+3 |
| Machines.LoadUnaligned | machine/mipssim.cc:312-418 | LWR at a, the sum of base register and offset in 32 bits, and LWL at a+3 load the word at a to a+3, and change no other register and no memory |
| Machines.LoadInterruptible | machine/interrupt.cc:352-354 | committing the pending load early leaves the whole machine as forwarding it does |
| Machines.UnalignedRoundTrip | machine/mipssim.cc:312-668 | what the pair of stores writes, the pair of loads reads back byte for byte, whatever load is pending into the register stored; the word is the one it held exactly if the pending load leaves the bytes that SWR writes as they are |
| Machines.PairStoresWordIff | machine/mipssim.cc:552-668 | the pair stores the word the register held exactly if the pending load leaves the low bytes, which SWR writes, as they are; always so if none is pending for it |
| Machines.PairStoresMixture | machine/mipssim.cc:552-668 | a machine on which a load is pending into the register and the four bytes stored are of neither value |
| Processors.Processor.TranslateAddress | machine/translate.cc:185-250 | result and use and dirty bits of Translate, with the search of the TLB |
| Processors.Processor.CommitLoad | machine/mipssim.cc:711-718 | the delayed load takes effect, the next one is recorded, and register 0 stays 0 |
| Processors.Processor.FetchWord | machine/translate.cc:86-120 | the word at the translated address |
| Processors.Processor.ExecuteLoad | machine/mipssim.cc:312-418 | LWL and LWR on the register file are the Load step, traps included |
| Processors.Processor.ExecuteStore | machine/mipssim.cc:552-668 | SWL and SWR on registers and memory are the Store step, traps included |
| Lists.Place | lib/list.cc:241-256 | the position of the first bigger element |
| Lists.InsertedSorted | lib/list.cc:234-260 | sorted insertion keeps the list sorted, adds one element, and puts it behind all that compare equal |
| Lists.List.Append | lib/list.cc:75-89 | the linked list gains the item at its end; links, tail pointer and count stay right |
| Lists.List.Prepend | lib/list.cc:98-112 | the same at its front |
| Lists.List.RemoveFront | lib/list.cc:125-142 | the first item is returned and gone |
| Lists.List.Remove | lib/list.cc:151-178 | the item is gone, the others keep their order |
| Lists.List.IsInList | lib/list.cc:187-197 | true exactly if the item is on the list |
| Lists.List.InsertSorted | lib/list.cc:234-260 | the linked list becomes the sorted insertion |
| HashTables.AppendHolds | lib/hash.cc:120-121 | appending to the bucket of the key keeps every item once in its bucket |
| HashTables.CutHolds | lib/hash.cc:218-219 | taking an item out keeps every other once in its bucket |
| HashTables.KeyInBucket | lib/hash.cc:168-198 | looking in one bucket decides whether a key is in the table |
| HashTables.LoadBound | lib/hash.cc:116-121 | after the resize test there are at most three items per bucket with one more |
| HashTables.FlattenHolds | lib/hash.cc:272-288 | the buckets in order hold every item exactly once, and their lengths add up to the number of items |
| HashTables.HashTable.constructor | lib/hash.cc:29-52 | the empty map |
| HashTables.HashTable.Insert | lib/hash.cc:110-124 | the map gains one key; at most three items per bucket |
| HashTables.HashTable.ReHash | lib/hash.cc:136-153 | four times the buckets, the same items, each in its new bucket |
| HashTables.HashTable.Find | lib/hash.cc:193-198 | found exactly if the key is in the map, with its item |
| HashTables.HashTable.Remove | lib/hash.cc:210-223 | the map loses the key, and its item is returned |
| HashTables.HashTable.FindNextFullBucket | lib/hash.cc:251-259 | the next bucket that is not empty |
| HashTables.HashIterator.constructor | lib/hash.cc:332-340 | all items are to come |
| HashTables.HashIterator.Next | lib/hash.cc:349-360 | all but the current item are to come |
| HashTables.VisitAll | lib/hash.cc:332-360 | a loop with the iterator meets every item of the table exactly once |

## Left out

- Host files, sockets and random numbers: the disk is an array of sectors, and keys, random delays and wakeups by clients of a device are inputs.
- Stack switching in assembly: SWITCH is the change of the current thread.
- `Lock`, `Condition`, `SynchList` and the concurrent `SynchDisk` have no classes: their methods are not atomic, so they are modelled as steps on values; `Semaphore`, whose steps are atomic, is a class.
- `Thread::Sleep` as one method: its idle loop is `Interrupts.Interrupt.WaitForThread`, its switch is `Schedulers.Scheduler.SwitchFromSleep`, and other threads run in between.
- `Condition::Broadcast`: a loop of Signal that the synchronized list does not use.
- Thread identities are never reused after deletion, unlike addresses of thread objects.
- Network and post office: never constructed by the kernel.
- Concurrent file-system calls and crashes: the code states that it supports neither.
- Subdirectories and files above `MaxFileSize`: not implemented in the code.
- The single global file handle of `FileSystem::Read`, `Write` and `Close`: handles are `OpenFile` objects.
- The rest of the instruction set, branch delay slots and the other exceptions: mostly one-line cases.
- Overflow of the tick counters and of the number of buckets beyond 32 bits.
- Printing, debugging, self tests, command-line parsing, user programs and the stub file system.
- HashTables.HashTable.Insert: a bucket is the sequence of items on its list, because the linked list is proved on its own in `Lists`.
- Interrupts.Interrupt.Schedule: the pending queue is a sequence, because the linked sorted list is proved on its own in `Lists`.
- Interrupts.Interrupt.OneTick: ends where the code calls Yield, which is a step of the scheduler.
- Processors.Processor.FetchWord: reads of one and two bytes are not modelled, because the unaligned instructions do not use them.
- HashTables.HashTable.ReHash: a bucket is a sequence here as well.
- SectorDisk.SynchDisk.ReadSector: the sequential view of the disk; lock, request, interrupt and wait are in `SynchDisks`.
- SectorDisk.SynchDisk.WriteSector: the sequential view of the disk; lock, request, interrupt and wait are in `SynchDisks`.
- Schedulers.Scheduler.Run: saving and restoring user state and the check for stack overflow are not modelled; the code after SWITCH is `CheckToBeDestroyed`.
- Interrupts.Interrupt.CallBack: how many threads the client of a device wakes is an input, because the semaphores are in modules of their own.
- Interrupts.Interrupt.CheckIfDue: the delayed load that is committed before the handlers is in `Machines`.
- Interrupts.Interrupt.WaitForThread: the ready list is a number, and the thread found is taken off it by `Schedulers.Scheduler.SwitchFromSleep`.
- DiskTiming.Disk.Request: the data transfer is in `SynchDisks` and the queue of interrupts in `Interrupts`.
