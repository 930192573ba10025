# Proofs about SOI-STUD

A Dafny project that models four programs of this repository and proves what they keep
and what they promise.

* **The memory allocator of MINIX's memory manager** (`t5/minix_usr/src/mm/alloc.c`): the
  hole list threaded through a fixed slot table, first fit and worst fit, freeing with
  merging on both sides, swapping processes out and in, the report of the holes and the
  `t` command that prints it.
* **Producers and consumers with baton passing** (`t3/semaphores.cpp`): any number of
  threads of four kinds around one buffer, one mutex and four gates.
* **A file system in a file** (`t6/fs.cpp`): block chains and their occupancy map,
  directories as bytes in blocks, hard links with counts, recursive removal, traversal
  with a visited list, copying in and out, growing and cutting files.
* **Signals and readiness in the kernel** (`t2/minix_usr/src/kernel/system.c`): the flags,
  pending sets, counts and ready queue that eight operations keep in step.

`dafny verify dfyconfig.toml` checks everything.

## Layout

| file | what is in it |
|---|---|
| `Basics.dfy`, `Links.dfy` | sequences, counting; linked lists threaded through a table |
| `HoleLists.dfy`, `HoleMaps.dfy` | the hole list as a value; the report of holes and its reader |
| `HoleTables.dfy` | the slot table with its two lists, in place |
| `Ledgers.dfy`, `Accounting.dfy` | who owns which click; the process table's part in it |
| `MemoryManagers.dfy` | allocation, swapping and start-up, in place |
| `Buffers.dfy`, `Semaphores.dfy` | the buffer; the threads as a step relation |
| `Rules.dfy` | when threads act and whom they wake, told by what was put and taken |
| `Casts.dfy`, `Deadlocks.dfy` | what missing kinds of threads mean; which casts can deadlock |
| `Wakeups.dfy` | which threads may be left parked though they may go |
| `Disks.dfy`, `Directories.dfy` | the disc as a value; directory elements as bytes |
| `Trees.dfy`, `LinkCounts.dfy` | the graph of links, lookups and reachability; exact link counts |
| `Removals.dfy`, `Insertions.dfy`, `Copies.dfy` | what removing, adding a name and copying do |
| `VirtualDiscs.dfy` | the file system's operations, in place |
| `Signals.dfy`, `Mailboxes.dfy` | the signal bookkeeping and the queues of senders as values |
| `Kernels.dfy` | the kernel's operations, in place |

Code that changes state is a class whose methods are proved against functions and
predicates on values; what these promise is proved as lemmas. A struct array is kept as one
array per field. Ghost state (the order of the lists, the chains of the disc, the
signals that the memory manager has been told of) only serves the proofs.

## What holds, and what does not

Nine expected properties are false of the code. For each there is the exact condition, and
where the failure is not plain from that, a concrete case.

* Processes that are not swapped out do not always lie in ordinary memory, so the flag does
  not always tell where a process lies (`OnSwapMeansAbove`). Memory is handed out from swap
  space just if worst fit finds no ordinary hole at first and the first hole has room
  (`AllocMem`, `WorstFitLeavesMemory`, `WorstFitTakesSwapSpace`), and so a process strays
  there when it is swapped in or installed just in that case (`TrySwapIn`, `SwapIn` with
  `NobodyStrays`, `Install`).
* Queueing a process to swap in loses one that waits just if that one is linked in behind it
  (`SwapInqueue`, `QueueingLoses`; `RequeueKeepsAll` for entries of any kind). A process lost
  goes on waiting, since queueing it again does nothing and swapping in serves the queue only
  (`LoseSecond` is such a run). No other operation loses anybody.
* Whoever asks for the report of holes reads past what was sent unless the request has room
  for all ordinary holes, their bases and the terminator (`ReaderRecoversOrdinaryHoles`); room
  for the whole table always suffices (`ListLengths`). The `t` command itself asks for 1024
  words (`t5/minix_usr/t.c:18-22`); the failing case is another caller with less room.
* With the mutex free, a parked thread may have a true condition. Exactly these are never
  left so: producers, a consumer that is the only one of its kind, and everybody where some
  kind of thread is missing (`WhoIsSpared`). A weaker invariant holds and is enough to exclude
  deadlock (`StepKeepsBaton`).
* Not every cast is free of deadlock: exactly those are that have producers and consumers of
  even numbers, and consumers of odd ones if they have producers of them (`WhoDeadlocks`).
* Adding a name keeps the link counts exact just if one element comes into use: the code
  fills every block with an unused place, and takes over what a new block held before
  (`OneComesInExactly`, `AddedLinks`). A link count also has only eight bits
  (`LinkingSettles`).
* A file copied in is found again under its name in every directory that had a block, and in
  one that had none just if no old element, ahead of the new one in the block taken, has
  the name and stands for another inode (`CopyComesBack`; `OldNameCanWin` is such a case).
* A process is readied twice by a resume or step just if it was runnable, and by an exec
  just if it was runnable and is not traced (`Trace`, `Exec`); the memory manager ending a
  signal that it was never told of breaks the counts (`EndSig`).
* A child takes over its parent's message queue with the rest of its entry; the queues are
  right afterwards just if nobody waits on the parent or on the child's slot, and the parent
  is not waiting to send (`Fork`). Every other operation keeps them right.

## Where the code and its comments differ

The code is followed in each case.

* `t5/minix_usr/src/mm/alloc.c:11-15` lists an entry `max_hole` that does not exist, and
  line 54 speaks of first fit only.
* `do_hole_map` compares a number of words with a size in bytes (lines 448-451).
* `t3/SOI_lab3_koncepcja.md` has a thread take its own semaphore first and the common one
  second, and the buffer keep counters; the threads of `semaphores.cpp` take the mutex first
  and the buffer counts on demand.
* `t6/readme.md` promises growing any file; an empty file has no block to start from, and
  the code then reads the block before the first (`t6/fs.cpp:947-951`).
* The superblock of `t6/fs.cpp` has counters of free inodes and blocks (lines 54-57) that no
  operation updates; free space is what `get_free_space` counts.

## Model

| member | source | states |
|---|---|---|
| HoleLists.CanonicalFormIsUnique | t5/minix_usr/src/mm/alloc.c:3-4 | two sorted lists of maximal holes that cover the same clicks are the same list |
| HoleLists.CarveTakesTheBlock | t5/minix_usr/src/mm/alloc.c:69-79 | biting a block off a hole takes exactly the clicks of the block from the free ones, all of which were free |
| HoleLists.FirstFitIsLowest | t5/minix_usr/src/mm/alloc.c:65-79 | the hole first fit takes is ordinary memory with room, and no ordinary hole with room lies below it |
| HoleLists.PoliciesSucceedTogether | t5/minix_usr/src/mm/alloc.c:64-107 | while an ordinary hole exists, first fit finds room just when worst fit does |
| HoleLists.WorstFitLeavesMemory | t5/minix_usr/src/mm/alloc.c:86-98 | the hole worst fit settles on is swap space just if there is no ordinary hole |
| HoleLists.WorstFitIsLongest | t5/minix_usr/src/mm/alloc.c:88-96 | no ordinary hole is longer than the one worst fit settles on, nor as long and before it |
| HoleLists.WorstFitTakesSwapSpace | t5/minix_usr/src/mm/alloc.c:86-98 | a hole list on which worst fit serves a request from swap space |
| HoleLists.MergeRestoresCanonical | t5/minix_usr/src/mm/alloc.c:181-211 | two merge steps make a list with touching neighbours there canonical again and change no click |
| HoleLists.ReleaseFreesTheBlock | t5/minix_usr/src/mm/alloc.c:113-154 | linking a block in and merging around it yields the canonical list of the old free clicks and the block's |
| HoleLists.FreeUndoesAlloc | t5/minix_usr/src/mm/alloc.c:66-154 | freeing a block just handed out restores the very same list of holes |
| HoleLists.FreesCommute | t5/minix_usr/src/mm/alloc.c:113-154 | two blocks freed in either order leave the same list |
| HoleMaps.ReadRecoversLengths | t5/minix_usr/t.c:24-30 | reading a terminated report gives the lengths of its holes in order |
| HoleMaps.ReadNeedsTerminator | t5/minix_usr/t.c:24-30 | a report cut off before its terminator makes the reader run past it |
| HoleMaps.FlattenHolds | t5/minix_usr/src/mm/alloc.c:453-455 | every hole shown has its two words, length and base, at its place in the report |
| HoleMaps.ReaderRecoversOrdinaryHoles | t5/minix_usr/src/mm/alloc.c:445-461 | the reader recovers the ordinary holes' lengths if and only if the request has room for them, their bases and the terminator |
| HoleMaps.ReadMap | t5/minix_usr/t.c:24-30 | the printing loop ends with the lengths up to the terminator |
| HoleTables.TwoListsAreApart | t5/minix_usr/src/mm/alloc.c:219-226 | hole list and list of spare slots are acyclic, share no slot and together use each slot once |
| HoleTables.UnlinkKeepsLists | t5/minix_usr/src/mm/alloc.c:169-175 | moving a slot from the hole list to the spare list keeps each slot on exactly one of the two |
| HoleTables.LinkInKeepsLists | t5/minix_usr/src/mm/alloc.c:126-152 | so does moving the first spare slot into the hole list, at the front or behind another |
| HoleTables.TouchTest | t5/minix_usr/src/mm/alloc.c:196-197 | the 32-bit sum recognises touching holes exactly |
| HoleTables.HoleTable.Reset | t5/minix_usr/src/mm/alloc.c:234-238 | all slots are spare and there is no hole |
| HoleTables.HoleTable.DelSlot | t5/minix_usr/src/mm/alloc.c:159-176 | one hole less, its slot the first spare one, both lists intact |
| HoleTables.HoleTable.Bite | t5/minix_usr/src/mm/alloc.c:69-78 | the front of the hole is handed out, and a hole used up is deleted with its true predecessor |
| HoleTables.HoleTable.FindFirstFit | t5/minix_usr/src/mm/alloc.c:66-83 | every ordinary hole passed over is too short, and the predecessor kept is the true one |
| HoleTables.HoleTable.FirstFit | t5/minix_usr/src/mm/alloc.c:65-83 | the first ordinary hole with room serves, or none has room and nothing changes |
| HoleTables.HoleTable.FindBiggest | t5/minix_usr/src/mm/alloc.c:86-96 | the scan ends with the first of the longest ordinary holes and its true predecessor |
| HoleTables.HoleTable.WorstFit | t5/minix_usr/src/mm/alloc.c:85-106 | the hole so found serves, or is too short and nothing changes |
| HoleTables.HoleTable.SwapFit | t5/minix_usr/src/mm/alloc.c:413-421 | the first swap hole with room serves, or none has room and nothing changes |
| HoleTables.HoleTable.FindSwapFit | t5/minix_usr/src/mm/alloc.c:413-416 | no hole passed over is swap space with room |
| HoleTables.HoleTable.Lengthen | t5/minix_usr/src/mm/alloc.c:197 | one hole grows, the others stay |
| HoleTables.HoleTable.AbsorbNext | t5/minix_usr/src/mm/alloc.c:196-201 | a hole takes over its successor just if they touch, and merging goes on from the right hole |
| HoleTables.HoleTable.LinkIn | t5/minix_usr/src/mm/alloc.c:127-152 | the block becomes one more hole at its place, in the first spare slot |
| HoleTables.HoleTable.FindPlace | t5/minix_usr/src/mm/alloc.c:145-148 | holes up to the one found lie below the block, the others do not |
| HoleTables.HoleTable.Merge | t5/minix_usr/src/mm/alloc.c:181-211 | the table merges as the list does, at most two holes with the first |
| HoleTables.HoleTable.FreeMem | t5/minix_usr/src/mm/alloc.c:113-154 | the holes afterwards are canonical and cover what was free and the block; it panics just if the block is not empty and every slot holds a hole |
| HoleTables.HoleTable.HoleMap | t5/minix_usr/src/mm/alloc.c:445-461 | the report is the first holes' lengths and bases and a zero, written within the buffer |
| HoleTables.HoleTable.ListLengths | t5/minix_usr/t.c:15-32 | the command lists the lengths of all ordinary holes just if the request has room for them, their bases and the terminator, as it always has with room for every slot |
| Ledgers.MemoryIsConserved | t5/minix_usr/src/mm/alloc.c:51-154 | free and handed out lengths add up to the managed memory |
| Ledgers.MovingKeepsPartition | t5/minix_usr/src/mm/alloc.c:413-432 | a block that moves into free space, its old place being freed, keeps holes and blocks disjoint and exhaustive |
| Ledgers.HolesAreFew | t5/minix_usr/src/mm/alloc.c:24-31 | there are no more holes than blocks in use and separate areas together |
| Accounting.MovingOutKeepsAccounts | t5/minix_usr/src/mm/alloc.c:413-432 | swapping a process out keeps the ledger of memory |
| Accounting.MovingOutKeepsOrdinary | t5/minix_usr/src/mm/alloc.c:413-432 | swapping out leaves an ordinary hole wherever there was one |
| Accounting.MovedOutOfMemory | t5/minix_usr/src/mm/alloc.c:413-432 | swapping out a process that lay in memory leaves the holes as they were, or an ordinary one |
| Accounting.ServedFromSwap | t5/minix_usr/src/mm/alloc.c:64-107 | the hole that serves lies in swap space just under worst fit, with no ordinary hole and room in the first |
| Accounting.BringingInKeepsAccounts | t5/minix_usr/src/mm/alloc.c:366-377 | moving a process into a block just handed out, its old one freed, keeps the ledger |
| Accounting.NobodyStrays | t5/minix_usr/src/mm/alloc.c:353-381 | over any number of rounds all residents stay in memory if and only if no round puts a process into swap space |
| Accounting.EachPassMovesOne | t5/minix_usr/src/mm/alloc.c:64-108 | between two passes over the holes exactly one process is swapped out, a blocked one not to be avoided, and before it no ordinary hole had room |
| Accounting.RequeueKeepsAll | t5/minix_usr/src/mm/alloc.c:330-336 | queueing a process keeps all others queued if and only if it was not linked in, or was last |
| Accounting.QueueingLoses | t5/minix_usr/src/mm/alloc.c:321-337 | queueing a process that does not wait keeps everybody who waits on the queue if and only if nobody who waits is linked in behind it |
| MemoryManagers.MemoryManager.SwapOutProcess | t5/minix_usr/src/mm/alloc.c:408-432 | the candidate moves to the first swap hole with room and is flagged, or no swap hole has room |
| MemoryManagers.MemoryManager.SwapOut | t5/minix_usr/src/mm/alloc.c:387-439 | counting up from the slot swapped out last, and on from the lowest user slot after the highest, the first process that can be moved is swapped out; or there is none in any user slot |
| MemoryManagers.MemoryManager.TryAlloc | t5/minix_usr/src/mm/alloc.c:64-107 | one pass: the policy's hole serves, or no ordinary hole fits and nothing changes |
| MemoryManagers.MemoryManager.AllocMem | t5/minix_usr/src/mm/alloc.c:51-109 | it ends; its passes over the holes are a run from the first state, in which one process in turn is swapped out just while nothing serves; the last pass takes the block from the hole that the policy picks, or finds nobody to move; memory comes from swap space just if worst fit finds no ordinary hole at first and the first hole has room, if residents lie in memory; only candidates are swapped out, and none if there was room; on failure nothing fits and nobody can be swapped out; no panic while blocks and areas are fewer than the slots |
| MemoryManagers.MemoryManager.SwapInqueue | t5/minix_usr/src/mm/alloc.c:321-337 | the process becomes last of the queue, cutting it short if it was still linked in; everybody who waits is on the queue if and only if it was so before, and nobody who waits was linked in behind the process |
| MemoryManagers.MemoryManager.FindTail | t5/minix_usr/src/mm/alloc.c:333 | the last process of the queue |
| MemoryManagers.MemoryManager.Unqueue | t5/minix_usr/src/mm/alloc.c:360 | the process leaves the queue, the others stay in order |
| MemoryManagers.MemoryManager.BringIn | t5/minix_usr/src/mm/alloc.c:368-377 | the process lies in its new block without its swap flags, and its old block is free |
| MemoryManagers.MemoryManager.TrySwapIn | t5/minix_usr/src/mm/alloc.c:363-377 | memory of its size is allocated, pass by pass as `AllocMem` says, and the process brought into it; or it waits on; residents then lie in memory, if they did, unless worst fit had to serve it from swap space, and only unless |
| MemoryManagers.MemoryManager.SwapInNext | t5/minix_usr/src/mm/alloc.c:353-381 | one process of the queue is dropped as stale, passed over for want of memory, or brought in and dropped; residents stay in memory just if it does not stray |
| MemoryManagers.MemoryManager.SwapIn | t5/minix_usr/src/mm/alloc.c:342-382 | it ends with just those of the queue that still wait, in order, the last of them for want of memory; the others are brought in, perhaps swapped out again, or were stale; the first in line comes in if there is room for it; nobody off the queue is served; round by round whoever waits is served as `TrySwapIn` says, and nothing else happens; residents stay in memory throughout just if in no round the process dealt with strays |
| MemoryManagers.MemoryManager.LoseSecond | t5/minix_usr/src/mm/alloc.c:321-361 | a run of two queued processes, the first of which ends and is replaced in its slot: the second waits for ever, off the queue |
| MemoryManagers.MemoryManager.MemInit | t5/minix_usr/src/mm/alloc.c:216-263 | the holes cover exactly the chunks, their total is reported, and the swap base lies one click past the highest |
| MemoryManagers.MemoryManager.SwapOn | t5/minix_usr/src/mm/alloc.c:268-282 | swap space is added once, as a free area apart from memory: as much as is asked for, or as an address can number |
| MemoryManagers.MemoryManager.FreeMem | t5/minix_usr/src/mm/alloc.c:113-154 | a block held by a caller becomes free, without panic while blocks and areas are fewer than the slots |
| MemoryManagers.MemoryManager.Install | t5/minix_usr/src/mm/alloc.c:58 | a block handed out becomes a process's, which keeps the ledger, and residents in memory just if the block lies there |
| MemoryManagers.MemoryManager.Withdraw | t5/minix_usr/src/mm/alloc.c:359-361 | a process's block goes back to a caller and its flags are cleared, while it stays linked in the queue; residents stay in memory |
| MemoryManagers.MemoryManager.SetFlags | t5/minix_usr/src/mm/alloc.c:402-406 | a process may come to wait for the memory manager, or be traced, which makes it a candidate just if it is not swapped out; the ledger is kept |
| MemoryManagers.MemoryManager.MemoryAddsUp | t5/minix_usr/src/mm/alloc.c:258-263 | in every state reached holes and blocks split the managed areas, their lengths add up, holes are few, and what is flagged as swapped out lies in swap space |
| MemoryManagers.MemoryManager.OnSwapMeansAbove | t5/minix_usr/src/mm/alloc.c:258-262 | the flag tells exactly the processes in swap space, if and only if all that are not swapped out lie in ordinary memory |
| Buffers.Buffer.Get | t3/semaphores.cpp:44-54 | the first number leaves the buffer, or minus one is returned from an empty one |
| Buffers.Buffer.Put | t3/semaphores.cpp:39-42 | the number goes to the end |
| Buffers.Buffer.CountEven | t3/semaphores.cpp:61-73 | the loop counts the even numbers |
| Buffers.Buffer.CountOdd | t3/semaphores.cpp:75-78 | the difference is the number of odd ones |
| Buffers.Buffer.PeekFirst | t3/semaphores.cpp:81-88 | the first number, or minus one |
| Buffers.Buffer.CanProduceEven | t3/semaphores.cpp:94-101 | fewer than ten even numbers |
| Buffers.Buffer.CanProduceOdd | t3/semaphores.cpp:103-110 | more even numbers than odd ones |
| Buffers.Buffer.CanConsumeEven | t3/semaphores.cpp:112-119 | at least three numbers, an even one first |
| Buffers.Buffer.CanConsumeOdd | t3/semaphores.cpp:121-128 | at least seven numbers, an odd one first |
| Buffers.SomeoneCan | t3/semaphores.cpp:94-128 | whatever the buffer holds, one of the four conditions is true |
| Semaphores.StepKeepsBaton | t3/semaphores.cpp:131-306 | every step keeps one baton in all, right counters, true conditions for whoever is woken, and some unparked thread of each waiting kind that may go |
| Semaphores.StepKeepsStock | t3/semaphores.cpp:131-306 | every step keeps the order of numbers, their parities and the limits of ten |
| Semaphores.NoDeadlock | t3/semaphores.cpp:131-306 | with all kinds present some thread can step, in every state with the invariant |
| Casts.StepKeepsLacking | t3/semaphores.cpp:131-306 | without producers of even numbers nothing is ever put, without those of odd ones no odd number, and without consumers of even numbers one stays in front |
| Deadlocks.NoRunDeadlocks | t3/semaphores.cpp:371-382 | no run reaches a deadlock where producers and consumers of even numbers are there, and consumers of odd ones if there are producers of them, in any number |
| Deadlocks.SomeRunDeadlocks | t3/semaphores.cpp:322-382 | any other cast has a run from the start after which no thread can step |
| Deadlocks.WhoDeadlocks | t3/semaphores.cpp:322-382 | so a cast can deadlock if and only if it is not of that kind |
| Semaphores.RunsAreSafe | t3/semaphores.cpp:131-306 | the invariants hold in every run, and a buffer that held two numbers keeps two |
| Semaphores.RunsKeepTheRules | t3/SOI_lab3_koncepcja.md:3-12 | in every run at most ten numbers of each parity wait, what was consumed and what waits is what was produced, in order, and consumers take only their parity |
| Semaphores.ActsOnlyIfItMay | t3/semaphores.cpp:131-306 | whoever puts or gets finds its condition true, and no consumer gets from an empty buffer |
| Rules.ActsByTheRules | t3/semaphores.cpp:94-128 | in every run, by the numbers put and taken so far: a thread that tests, or was woken, acts if and only if fewer than ten even numbers wait, or fewer odd than even ones, or at least three with an even one next, or at least seven with an odd one next |
| Rules.WakesByTheRules | t3/semaphores.cpp:154-302 | in every run: a thread that is done wakes the first of the other kinds, in their order, that has a thread parked and may go by these rules, and releases the mutex if and only if there is none |
| Rules.StockIsTold | t3/semaphores.cpp:34-89 | how many numbers wait, of which parity, and whose the first is, is what was put less what was taken |
| Wakeups.SoleIsNotMissed | t3/semaphores.cpp:131-306 | the only thread of a kind is never left parked, with the mutex free, while it may go |
| Wakeups.StepKeepsHeld | t3/semaphores.cpp:131-218 | while producers of even numbers wait there is room for at most one, and then the baton is coming to them; while those of odd numbers wait, odd ones are behind by at most one, and then too |
| Wakeups.ProducersAreNotMissed | t3/semaphores.cpp:131-218 | in every run, and in any number, no producer is left parked with the mutex free while it may go |
| Wakeups.TwoConsumersCanMissOne | t3/semaphores.cpp:220-306 | whatever threads there are, with all kinds present: of any two consumers of a kind the second can be left parked, with the mutex free, though it may go |
| Wakeups.EatersAreNotMissed | t3/semaphores.cpp:131-262 | without producers, or without consumers, of odd numbers no consumer of even ones is missed in any run, in any number |
| Wakeups.StepKeepsEater | t3/semaphores.cpp:131-262 | in such a cast, while consumers of even numbers wait that could go, one is next, perhaps after one odd number more, and leaves an odd number in front or too few |
| Wakeups.WhoIsSpared | t3/semaphores.cpp:131-306 | in any cast, a kind is never missed in any run if and only if it produces, has at most one thread, or some kind is missing |
| Semaphores.LockedNeverRuns | t3/semaphores.cpp:384-396 | with the mutex taken from the start there is no baton and nothing can step |
| Semaphores.SoleProducerCountsUp | t3/semaphores.cpp:133-145 | the k-th number of a lone producer is 2k, or 2k + 1, modulo 50 |
| Semaphores.ProducersStop | t3/semaphores.cpp:353-359 | runs of producers alone are bounded |
| Semaphores.WhereProducersStop | t3/semaphores.cpp:353-359 | and end with ten even and ten odd numbers put, if both kinds are there |
| Disks.LinkingKeepsWellFormed | t6/fs.cpp:497-502 | linking a free block into a chain keeps chains apart and acyclic, the map being right up to that block |
| Disks.CuttingKeepsWellFormed | t6/fs.cpp:904-927 | cutting a chain gives back exactly the blocks cut off |
| Disks.SpaceIsConserved | t6/fs.cpp:787-798 | free blocks and chained blocks add up to the disc |
| Disks.GrowsByABlock | t6/fs.cpp:966-996 | a full file takes one more block and gains exactly the bytes written, whatever the block held |
| Disks.GrowsInLastBlock | t6/fs.cpp:953-965 | a file whose last block has room gains exactly the bytes written there |
| Disks.ShortensTo | t6/fs.cpp:903-928 | a cut file keeps exactly its first bytes and the blocks they need |
| Disks.GrowThenShorten | t6/fs.cpp:881-998 | growing and cutting by as much restores content, chains, links, map and inodes |
| Disks.UnlinkingRestores | t6/fs.cpp:450-467 | taking off the block linked in for nothing restores the disc |
| Directories.EntryReadsBack | t6/fs.cpp:40-45 | an element written is read back, and no other is disturbed |
| Directories.ElementLayout | t6/fs.cpp:39-44 | inode number, flag and name of an element lie at their bytes of the block, twenty to an element |
| Directories.ClearedReadsBack | t6/fs.cpp:846-848 | a cleared element is unused, and no other is disturbed |
| Directories.TextOfPadded | t6/fs.cpp:379-382 | a name stored with padding is the name compared |
| Insertions.NameIsCut | t6/fs.cpp:379-382 | a new element has the first sixteen bytes of the name, and zeros behind a shorter one |
| Trees.ClosedHoldsReachable | t6/fs.cpp:757-785 | a list closed under links holds all that can be reached |
| Trees.SumOfDistinct | t6/fs.cpp:757-785 | sizes listed without repetition add up to the size of the set, in any order |
| Trees.SizesAreLengths | t6/fs.cpp:765-781 | the sizes of files listed add up to the number of bytes they hold, one after the other |
| Trees.BytesOfOneMore | t6/fs.cpp:770-781 | a file listed adds its content to these bytes, anything else adds nothing |
| Trees.ExploredAll | t6/fs.cpp:757-785 | a traversal from nothing visited visits exactly what can be reached |
| Trees.TrailIsTelling | t6/fs.cpp:351-375 | a trail that is complete, or stuck, decides where the path leads |
| Trees.LocatedIsTelling | t6/fs.cpp:321-375 | the outcome of a lookup decides whether the path leads somewhere and what the name stands for there |
| LinkCounts.HandledOneMore | t6/fs.cpp:851-870 | handling one more element takes one link from its inode, whose count was positive |
| LinkCounts.ProtectedStays | t6/fs.cpp:828-848 | an inode with a link from a protected directory cannot lose its last link |
| LinkCounts.AllHandledGone | t6/fs.cpp:828-848 | once the unlinked element is cleared the counts are exact again |
| LinkCounts.LiveIffReachable | t6/fs.cpp:851-879 | without cycles, and with exact counts, an inode is in use just if it can be reached from the root |
| Removals.FreeingSettles | t6/fs.cpp:873-879 | freeing an inode without links whose elements are all handled keeps the counts |
| Removals.StartsUnlinking | t6/fs.cpp:828-844 | the directories on the way to the element survive its removal |
| Removals.ConfinedToo | t6/fs.cpp:856-872 | what a recursive call affects lies below the inode being removed |
| Removals.FreedFurther | t6/fs.cpp:856-872 | what the removal of one more element frees has lost every link to directories freed before, in the order of the recursion |
| Removals.FreedIsClosed | t6/fs.cpp:851-879 | what has no link left, but from the element and from inodes freed, is freed |
| Removals.FreedIsLeast | t6/fs.cpp:851-879 | and every set that holds whatever it cuts off holds what is freed, so that a cycle below is left standing |
| Insertions.AddedLinks | t6/fs.cpp:377-430 | with the count raised beforehand, the counts are exact after an insertion if and only if one element has come into use |
| Insertions.OneComesInExactly | t6/fs.cpp:397-428 | and that is so if and only if just one block has an unused place, or the block taken holds nothing in use that stays |
| Insertions.LinkAddedCounts | t6/fs.cpp:823-825 | a link raises one count by one, modulo 256, and changes no other count, no kind and no size |
| Insertions.LinkingSettles | t6/fs.cpp:823-825 | linking keeps the tree sound if and only if the count is below 255 and one element comes into use |
| Insertions.NewNodeSettles | t6/fs.cpp:490-494 | so does a new inode, if and only if one element comes into use |
| Insertions.StillLeads | t6/fs.cpp:351-430 | wherever a path led before a name was added, it still leads there, whatever blocks were filled or taken |
| Insertions.NewNameStandsFor | t6/fs.cpp:377-430 | the directory has the new name, which stands for the new inode if and only if no old element ahead of it has that name and another inode; there is none if the directory had a block |
| Insertions.OldNameCanWin | t6/fs.cpp:384-409 | a root directory without a block, which gets one that has the new name already: the name stands for the old element's inode |
| Insertions.RangeAfter | t6/fs.cpp:384-430 | elements in use name inodes of the disc, if and only if those do that the blocks taken bring with them |
| Insertions.StaleIsKnown | t6/fs.cpp:384-430 | which blocks an insertion takes, and so what old elements they bring, is known from the disc before |
| Copies.CopyingSettles | t6/fs.cpp:469-556 | after copying in, the tree is sound if and only if one element came into use, and elements name inodes just under the condition above |
| Copies.CopyComesBack | t6/fs.cpp:469-595 | looking the copied name up finds the copy, which holds the bytes copied in, if and only if the name is uncontested; always, if the directory had a block |
| Copies.ShorteningKeepsTree | t6/fs.cpp:881-929 | cutting a file changes no directory and no count |
| VirtualDiscs.VirtualDisc.constructor | t6/fs.cpp:143-186 | an empty disc with the root directory in inode 0, whose tree is sound |
| VirtualDiscs.VirtualDisc.FindFreeNode | t6/fs.cpp:296-306 | the lowest free inode, or none is free |
| VirtualDiscs.VirtualDisc.FindFreeDatablock | t6/fs.cpp:308-319 | the lowest free block, or none is free |
| VirtualDiscs.VirtualDisc.GetFreeSpace | t6/fs.cpp:787-798 | the free blocks' bytes |
| VirtualDiscs.VirtualDisc.SpaceAddsUp | t6/fs.cpp:787-798 | free space and chained space make up the disc, in every state |
| VirtualDiscs.VirtualDisc.DeallocDatablocks | t6/fs.cpp:432-448 | just the blocks of the list are unmarked and lead nowhere |
| VirtualDiscs.VirtualDisc.RemoveDatablockFromInode | t6/fs.cpp:450-467 | whatever leads to the block ends there, and nothing else changes |
| VirtualDiscs.VirtualDisc.LastBlock | t6/fs.cpp:947-951 | the walk along the links ends at the last block of the chain |
| VirtualDiscs.VirtualDisc.FillLastBlock | t6/fs.cpp:955-964 | the last block's rest is cleared as far as needed, and the file is longer by that |
| VirtualDiscs.VirtualDisc.AppendZeros | t6/fs.cpp:967-995 | one more block is linked in, marked, cleared as far as needed and counted |
| VirtualDiscs.VirtualDisc.IncreaseFile | t6/fs.cpp:947-997 | exactly the amount of zero bytes is appended, other files are untouched, the chain has the blocks the size needs |
| VirtualDiscs.VirtualDisc.DecreaseFile | t6/fs.cpp:897-928 | exactly the prefix is kept and the rest of the chain freed, or the amount is too large and nothing changes |
| VirtualDiscs.VirtualDisc.SkipBlocks | t6/fs.cpp:911-917 | the block after the first k of a chain, and the one before it |
| VirtualDiscs.Fread | t6/fs.cpp:517 | as much as is there, up to the amount asked for; the end is noticed just if less was there |
| VirtualDiscs.VirtualDisc.ReadBlock | t6/fs.cpp:513-533 | the inner loop leaves the next bytes of the host file at the front of the block, in spite of writing there each time |
| VirtualDiscs.VirtualDisc.CopyBlock | t6/fs.cpp:511-554 | one round either takes the block off again, or ends the file with it, or links another one in behind |
| VirtualDiscs.VirtualDisc.FillFile | t6/fs.cpp:502-555 | an empty file holds the host file's bytes, for every length, and has just the blocks they need |
| VirtualDiscs.VirtualDisc.CopyOut | t6/fs.cpp:581-594 | the file's bytes, for a file, and for any inode the front of its blocks as far as its size goes; failure just if a block is left when the size is used up |
| VirtualDiscs.VirtualDisc.FindElemInDir | t6/fs.cpp:321-341 | the first element, in chain and block order, found under the name, or there is none |
| VirtualDiscs.FindInBlock | t6/fs.cpp:330-337 | the first element of a block found under the name |
| VirtualDiscs.VirtualDisc.FindInDir | t6/fs.cpp:343-349 | the inode that the first element of that name stands for, or there is none |
| VirtualDiscs.VirtualDisc.Locate | t6/fs.cpp:828-842 | the directory at the end of a path and the inode a name stands for there, or which of them is missing |
| VirtualDiscs.VirtualDisc.FindDirInode | t6/fs.cpp:351-375 | the one directory the path leads to, or none, the trail being stuck at the first name that is missing or no directory |
| VirtualDiscs.VirtualDisc.SumRecursively | t6/fs.cpp:757-785 | it ends even when links form cycles; what it adds to the visited list is reachable, new and closed under links, and the sum is the number of bytes that its files hold |
| VirtualDiscs.VirtualDisc.VisitElem | t6/fs.cpp:765-781 | one element adds what it leads to, unless it is unused or its inode was seen before, and the bytes of the files among that |
| VirtualDiscs.VirtualDisc.Report | t6/fs.cpp:695-697 | the number of bytes held by the files reachable from a directory, each counted once in whatever order they are listed, and the free space |
| VirtualDiscs.VirtualDisc.RemoveFile | t6/fs.cpp:851-879 | it ends; one link less, or the inode is freed; besides, just those are freed that lost every link, to directories whose turn came before; counts stay exact, protected and open directories stand, nothing outside what can be reached changes |
| VirtualDiscs.VirtualDisc.RemoveElements | t6/fs.cpp:857-872 | afterwards every element in use of the directory has been handled, and the directory still stands |
| VirtualDiscs.VirtualDisc.RemoveElement | t6/fs.cpp:863-870 | one more element has been handled, with the removal it causes |
| VirtualDiscs.VirtualDisc.FreeInode | t6/fs.cpp:874-878 | inode and blocks are free and the counts still exact |
| VirtualDiscs.VirtualDisc.Unlink | t6/fs.cpp:828-849 | the first element of that name is cleared and counts are exact again; the inodes freed are the least set that holds whatever loses all its links to the element and to the set itself; on a bad path or name nothing changes |
| VirtualDiscs.VirtualDisc.ClearElement | t6/fs.cpp:846-848 | the second lookup finds the same element, and clearing it settles the counts |
| VirtualDiscs.VirtualDisc.AddElemToDir | t6/fs.cpp:377-430 | which elements change, which blocks are taken and what they then hold |
| VirtualDiscs.FindUnused | t6/fs.cpp:400-409 | the first unused place of a block |
| VirtualDiscs.VirtualDisc.InsertInChain | t6/fs.cpp:394-416 | every block with an unused place gets the element there, the others stay; the last block is found |
| VirtualDiscs.VirtualDisc.InsertInBlock | t6/fs.cpp:400-409 | one block gets the element, if it has a place |
| VirtualDiscs.VirtualDisc.TakeBlock | t6/fs.cpp:384-393 | the lowest free block joins the directory's chain and is marked |
| VirtualDiscs.VirtualDisc.FirstBlock | t6/fs.cpp:384-393 | a directory without blocks gets one, any other stays |
| VirtualDiscs.VirtualDisc.AppendBlock | t6/fs.cpp:417-429 | a block joins the chain with the element in front of what it held |
| VirtualDiscs.VirtualDisc.Link | t6/fs.cpp:800-826 | the count goes up modulo 256 and the name is added; sound afterwards just under the condition of `LinkingSettles`, on what is known before |
| VirtualDiscs.VirtualDisc.CopyFileToDisc | t6/fs.cpp:469-556 | the lowest free inode becomes a file of that name with the host's bytes; otherwise nothing changes, and why; sound afterwards just under the condition of `CopyingSettles`, on what is known before |
| VirtualDiscs.VirtualDisc.CreateFile | t6/fs.cpp:490-554 | a free inode becomes a file, gets its name and is filled |
| VirtualDiscs.VirtualDisc.CopyFileFromDisc | t6/fs.cpp:558-595 | the bytes of the file that path and name stand for; a bad path and a missing name are told apart |
| VirtualDiscs.VirtualDisc.DecreaseFileSize | t6/fs.cpp:881-929 | the file the name stands for is cut; otherwise nothing changes, and why; directories stay, and the tree is as sound as before |
| VirtualDiscs.VirtualDisc.IncreaseFileSize | t6/fs.cpp:931-998 | the file the name stands for grows by zeros; otherwise nothing changes, and why; directories stay, and the tree is as sound as before |
| Signals.SignalsChange | t2/minix_usr/src/kernel/system.c:1039-1042 | one process's flags, pending set and count may change just so that they agree with each other |
| Signals.SignalFinished | t2/minix_usr/src/kernel/system.c:650-655 | one unfinished signal less leaves flags, sets and counts in agreement if and only if the memory manager had been told of one |
| Signals.Readied | t2/minix_usr/src/kernel/system.c:355 | readying a process keeps the queue right if and only if it was not runnable before |
| Signals.Unreadied | t2/minix_usr/src/kernel/system.c:1053-1054 | taking a process off before blocking it keeps the queue right |
| Signals.SignalledIsNotReady | t2/minix_usr/src/kernel/system.c:1039-1042 | a process with a pending or unfinished signal is never on the ready queue |
| Mailboxes.TakenOff | t2/minix_usr/src/kernel/system.c:405-422 | the queues stay linked and apart, one of them without the process |
| Mailboxes.MailAfterFork | t2/minix_usr/src/kernel/system.c:222 | after a copy of head and link just those that are sending wait, each once, if and only if both queues were empty and the parent not sending |
| Kernels.Kernel.CauseSig | t2/minix_usr/src/kernel/system.c:1026-1061 | a new signal is counted and holds the process up; an idle memory manager is told at once, so that it never idles while a signal is untold |
| Kernels.Kernel.AddSignal | t2/minix_usr/src/kernel/system.c:1047-1056 | the signal is pending and counted, and the process is held up |
| Kernels.Kernel.FirstPending | t2/minix_usr/src/kernel/system.c:1079-1080 | the lowest process with pending signals |
| Kernels.Kernel.SendToMM | t2/minix_usr/src/kernel/system.c:1085-1086 | the memory manager no longer waits, and is readied unless something else holds it up |
| Kernels.Kernel.Inform | t2/minix_usr/src/kernel/system.c:1067-1092 | the lowest process with pending signals is reported with all of them, which become the memory manager's |
| Kernels.Kernel.EndSig | t2/minix_usr/src/kernel/system.c:639-657 | the last signal finished makes the process runnable again; all bookkeeping agrees just if the memory manager had been told of one |
| Kernels.Kernel.FinishSignal | t2/minix_usr/src/kernel/system.c:650-655 | of a signal that the memory manager had not been told of, the bookkeeping no longer agrees, and only then |
| Kernels.Kernel.SetFlags | t2/minix_usr/src/kernel/system.c:282-284 | a change of flags that are not about signals readies a process; rightly, just if it was not runnable |
| Kernels.Kernel.NewMap | t2/minix_usr/src/kernel/system.c:282-284 | a process that only lacked a map is readied, once |
| Kernels.Kernel.Exec | t2/minix_usr/src/kernel/system.c:325-355 | if the process is traced, SIGTRAP and no other signal is told to an idle memory manager, or is pending from then on and counted once, and only the process and the memory manager change; all bookkeeping agrees afterwards if and only if the process was not runnable or is traced |
| Kernels.Kernel.Trap | t2/minix_usr/src/kernel/system.c:339-355 | the traced case of an exec |
| Kernels.Kernel.Fork | t2/minix_usr/src/kernel/system.c:201-247 | the child is blocked, without signals or tracing, and all bookkeeping of them agrees; the message queues are right just if nobody waited on parent or child, and the parent was not sending |
| Kernels.Kernel.Xit | t2/minix_usr/src/kernel/system.c:372-431 | the slot is free, off the ready queue and without signals, and all bookkeeping agrees; the process waits on no message queue any more, the others in their order |
| Kernels.Kernel.LeaveQueue | t2/minix_usr/src/kernel/system.c:401-422 | the scan of all slots takes the process off the one queue it waits on |
| Kernels.Kernel.Unchain | t2/minix_usr/src/kernel/system.c:408-421 | one queue: the head, or the link that leads to the process, leads past it |
| Kernels.Kernel.Trace | t2/minix_usr/src/kernel/system.c:815-900 | a stop is always safe; after a resume or step the bookkeeping agrees if and only if the process was not runnable before; so for every slot |
| Kernels.Kernel.MMBlocks | t2/minix_usr/src/kernel/system.c:1070-1073 | a memory manager about to wait is told of all signals of the lowest process with any, and runs on; or there is none, and it waits |

## Left out

Allocator:

- `swap_off` (`t5/minix_usr/src/mm/alloc.c:287-316`): the loop that deletes swap holes goes on from the head of the list after each deletion with a stale predecessor.
- Reading and writing the swap file, telling the kernel of a new map, and waking processes with pending signals: swapping changes a block's place and a process's flags only.
- `do_worst_fit` only sets the flag; here it is a field.
- A process's size spans its data and stack segments and is one number here; `NO_MEM` is an outcome, its value being in a header that is not part of this model. Panic is an outcome too.
- Forking, executing and exiting in the rest of the memory manager appear as the steps `Install` and `Withdraw`, which pass a block from a caller to a slot and back.
- HoleTables.HoleTable.WorstFit: needs a hole in the list, because the code looks at the head without checking that there is one.
- HoleTables.HoleTable.HoleMap: the buffer is a local sequence; what a request for more bytes than the buffer has would copy from behind it is not modelled.
- HoleTables.HoleTable.FreeMem: needs a block that no hole covers and that ends within a 32-bit address.

Producers and consumers:

- Printing, sleeping and creating threads; the rule of C++ that only its owner unlocks a mutex. The mutex and the gates are binary semaphores.
- A step of a thread is one of taking the mutex, the condition, counting, parking, passing the gate, putting or getting, and handing over; the code between two blocking points is not split further where only the holder of the baton can see it.
- The counters of waiting threads do not wrap.
- The monitor version in `t4`.

File system:

- Reading and writing the disc's file (`create`, `open`, `save`), printing, splitting paths and dispatching commands. A path is a sequence of names, a host file a sequence of bytes whose reads return what is there up to the amount asked for.
- `make_dir`: repeats the insertion of `add_elem_to_dir` for each missing name.
- `get_sum_files_in_dir`, which adds up one directory without recursion.
- A name stored without a terminating zero is compared up to its full length; the code would go on into the byte behind it.
- 64-bit sizes and block numbers do not overflow; the unsigned -1 of a link is `NIL`.
- VirtualDiscs.VirtualDisc.IncreaseFile: needs a file that is not empty, and enough free blocks: the code reads a block before the first for an empty file, and the 32-bit result of a search in vain is never equal to the 64-bit value it is compared with.
- VirtualDiscs.VirtualDisc.FillFile: needs enough free blocks, including the one that is taken and given back when the length is a multiple of the block size, for the same reason.
- VirtualDiscs.VirtualDisc.AddElemToDir: needs the blocks it takes, for the same reason.
- VirtualDiscs.VirtualDisc.CopyFileToDisc: a host file that cannot be opened is not modelled; the code checks another variable.
- VirtualDiscs.VirtualDisc.SumRecursively: needs a directory, and elements in use that name inodes of the disc.

Kernel:

- Registers, segments, memory maps, copying, diagnostics, process groups and the calls that only move data.
- Readying, unreadying and sending are in a file that is not part of this repository. Here readying appends to one queue, unreadying removes the first occurrence, and a message to the memory manager ends its waiting and readies it if nothing else holds it up. How a process comes to wait on a message queue, and leaves it when its message is taken, is in that file too: no operation here makes a process send.
- Which signals the memory manager finishes with, and when it waits, is up to the caller of `EndSig` and `MMBlocks`.
- `clock.c`, whose scheduling depends on the same missing file.
