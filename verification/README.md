# A verified model of the xv6 kernel with a deadline scheduler

The repository is the xv6 teaching kernel whose process queue has been replaced by a skip list
ordered by virtual deadline. This project models the parts of it that keep state over many
steps, in the form the source has (classes whose methods update fields, loops with invariants,
recursion where the source recurses), and proves what they are for:

- `Bio.dfy`, `Recovery.dfy`, `Log.dfy`: the buffer cache and the redo log. Every state that the
  disk passes through is kept in a trace, so "a crash at any point" is a statement about all
  of its states. The outcome of recovery is the old file system or the new one, and which of
  the two is decided by the header write.
- `Skiplist.dfy`, `Sched.dfy`, `Kernel.dfy`: the skip list refines a stable sorted sequence; the
  process state machine keeps that sequence equal to the waiting processes in every reachable
  state; a process close to its deadline is overtaken only a bounded number of times.
- `Fs.dfy`: files as flat byte sequences over direct and indirect blocks, with block ownership.
- `Umalloc.dfy`: the user-level allocator; free and live blocks tile the memory.
- `Vm.dfy`: page tables and page frames; growing, shrinking, freeing and copying.
- `Sleep.dfy`: sleep and wakeup over all interleavings. `Pipe.dfy`: the ring buffer as a queue.
- `Shell.dfy`, `Spelling.dfy`, `Parser.dfy`: the shell's grammar and its printed form, what else a command
  may be spelled like, and the parser as it runs.
- `Grep.dfy`: the pattern matcher against the meaning of a pattern.
- `Seqs.dfy`: insertion and removal in sequences, and what else several files use.

Pointers are indices or addresses into sequences and maps that the methods reassign. Clocks,
random numbers, the pages handed out for skip list nodes, the memory granted by `sbrk` and what
other processes do during a sleep are parameters; every theorem holds for all of their values.

Eight things the code does not do as one would expect; in each case the model follows the code,
a lemma gives an input at which it fails, and an exact condition is proved:

- An operation within its reservation can run into "too big a transaction". With blocks that are not
  logged yet this happens in some run unless the log has more than `LOGSIZE` blocks, since one of
  them is the header (`Log.ReservationSuffices`); `mkfs.c:25` gives it exactly `LOGSIZE`. With a block
  that is logged already it can happen in a log of any size, because the test comes before the search
  for the block (`Log.LoggingAgainFails`). In a larger log it happens exactly when the header is full,
  and then every outstanding operation has used up its reservation (`Log.WriteFailsIff`).
- That test takes no lock, so up to three operations can pass it while there is room for one block, and
  then all enter theirs. More blocks than the log has slots can get logged exactly if it has at most
  `LOGSIZE` blocks and not just the header (`Log.NeverOverrun`). The commit then writes log blocks behind
  the end of the log, in some run exactly if there are more buffers than log blocks (`Log.OverrunIff`),
  and a crash before the header write leaves the old file system exactly if those blocks happen to be
  equal to what they are written over (`Recovery.OverrunHarmlessIff`).
- A larger log alone does not help: the blocks of a transaction stay in the cache until the commit, and
  with `NBUF` buffers they can then take all of them (`Log.LargerLogNeedsBuffers`), so that the commit
  finds none for the log. With the log of `mkfs.c` this can happen too (`Log.KernelLogFills`). Every
  commit of every run goes through exactly if log and cache both have more than `LOGSIZE` blocks
  (`Log.CommitsGoThrough`); each single one as `Log.Log.EndOp` says.
- `delete_node` does nothing if a process with the same deadline stands ahead under a tower that is
  at least as tall (`Skiplist.SecondIsBlocked`, `Skiplist.EqualNotDeleted`), and exactly then
  (`Skiplist.FoundIff`, `Skiplist.SkipList.DeleteNode`). Its one caller removes the first process,
  where this cannot happen (`Kernel.FirstNotBlocked`).
- `delete_node` backs up past the header of the list, to a null pointer, exactly if the deadline does
  not come after the header's (`Skiplist.SkipList.BackUp`, `Kernel.LeavesList`); a nice value of -100 at
  tick 0 gives the deadline -3950 (`Sched.NiceValues`).
- `nicefork` inserts the child without a lock. Two insertions behind one node that both read its successor
  before either writes leave the level without the first (`Skiplist.RacingInserts`); if the second reads what
  the first wrote, both are there (`Skiplist.InsertsInTurn`).
- `randomize_max_level` can return one level more than there is (`Kernel.TooTall`), exactly when every
  draw is 0 (`Kernel.RandomizeMaxLevel`).
- `malloc` rounds a request up in 32 bits, so the largest requests get too small a block
  (`Umalloc.HugeRequestGetsNothing`, `Umalloc.Room`), and it asks `sbrk` for what it records exactly up
  to a limit, above which it may even give memory back (`Umalloc.HalfRequestShrinks`,
  `Umalloc.RequestWorks`).

`dafny verify dfyconfig.toml` checks the whole project.

## Model

| member | source | states |
|---|---|---|
| Bio.Unlink | bio.c:132-133 | the two assignments take one node out of the circular doubly linked list and leave the others linked in order |
| Bio.LinkFirst | bio.c:50-54 | the four assignments link a node in behind the head |
| Bio.Splice | bio.c:132-137 | unlinking and linking a buffer gives the list with that buffer moved to the front |
| Bio.Younger | bio.c:127-137 | moving a released buffer to the front keeps the list in order of release |
| Bio.Bcache.constructor | bio.c:39-56 | all buffers are linked, unused and not valid |
| Bio.Bcache.FindCached | bio.c:68-76 | finds the buffer of a block, or no buffer has that block |
| Bio.Bcache.FindVictim | bio.c:81-91 | finds the unused clean buffer that was released longest ago, or there is none |
| Bio.Bcache.Bget | bio.c:61-93 | one buffer per block of a device in use; recycles only an unused clean buffer, the one released longest ago; fails only if the block is not cached and no buffer is free |
| Bio.Bcache.Iderw | ide.c:137-168 | a dirty buffer is written and one that is not valid is read, so that it holds the last value written |
| Bio.Bcache.Bread | bio.c:96-106 | returns the last value written to the block, locked, and writes nothing to disk |
| Bio.Bcache.Bwrite | bio.c:109-116 | the block on disk gets the buffer's data as one atomic change |
| Bio.Bcache.MoveFirst | bio.c:132-137 | the buffer becomes the most recently released |
| Bio.Bcache.Brelse | bio.c:120-141 | unlocks and drops one reference; the last one makes it the most recently released |
| Bio.Bcache.Pin | log.c:231 | a dirty buffer stays in the cache and its value stays the block's last value |
| Recovery.InstallAt | log.c:69-82 | after installing, a block has the value of its last log entry or is unchanged |
| Recovery.InstallKeepsLog | log.c:69-82 | installing changes neither the log's header nor its data |
| Recovery.InstallTwice | log.c:69-82 | recovery started from a half-done installation ends like one started from the beginning |
| Recovery.RecoverTwice | log.c:115-122 | recovery empties the log and repeating it changes nothing |
| Recovery.RecoverNamed | log.c:69-96 | word 0 of the header counts the entries; the block named by word 1 + i gets the value of the i-th block behind the header, unless a later word names it again |
| Recovery.RecoverOther | log.c:69-96 | blocks that no word names are left as they are |
| Recovery.RecoverAfterCrashes | log.c:115-122 | any number of crashes during recovery do not change the disk that a completed recovery leaves |
| Recovery.CrashBeforeCommit | log.c:177-190 | a crash while the log is written recovers the old file system |
| Recovery.HeadedWords | log.c:107-110 | the words of the header block are the count and the block numbers in order |
| Recovery.LoggedLies | log.c:177-190 | the value of the i-th changed block is in the i-th block behind the header |
| Recovery.CommitPoint | log.c:101-113 | with the header on disk, recovery gives the new file system |
| Recovery.CrashInCommit | log.c:192-202 | from any state of a commit, recovery gives the old or the new file system, the new one exactly from the header write on |
| Recovery.CrashAtomicity | log.c:192-202 | the same after any number of further crashes during recovery |
| Log.Pigeonhole | bio.c:81-91 | buffers that hold different blocks are no more than the blocks |
| Log.NoPanic | bio.c:92 | with fewer blocks pinned or held than buffers, bget finds a buffer |
| Recovery.OverrunHarmlessIff | log.c:177-190 | with more blocks than slots, a crash while the log is written recovers the old file system if and only if the blocks written behind the end change nothing |
| Log.RunKeepsSpace | log.c:125-233 | in every run of begin_op, the test and the locked part of log_write, end_op and commit, the logged blocks and the unused reservations together fit in the header |
| Log.RunKeepsBound | log.c:125-233 | in every run, at most three operations are outstanding, and the logged blocks with those whose test has passed are at most one more than the log has |
| Log.ReachableOk | log.c:213-233 | in every reachable state, at most Most(size) blocks are logged |
| Log.ReachMost | log.c:218-232 | a run in which as many are: up to three operations pass the test before any of them takes the lock |
| Log.NeverOverrun | log.c:218-232 | in every run fewer blocks are logged than the log has if and only if it has more than LOGSIZE, or only the header |
| Log.KernelLogFills | log.c:213-233 | with LOGSIZE log blocks a run logs LOGSIZE blocks, the last of which has no slot, and no buffer is left for the commit |
| Log.CommitsGoThrough | log.c:192-202 | every commit of every run goes through if and only if log and cache have more than LOGSIZE blocks, or nothing can be logged |
| Log.OverrunIff | log.c:177-190 | some run writes behind the end of the log if and only if the log has two to LOGSIZE blocks and fewer than there are buffers |
| Log.ReservationSuffices | log.c:213-219 | no operation within its reservation can hit the panic with a block not logged yet, in any run, if and only if the log has more than LOGSIZE blocks |
| Log.WriteFailsIff | log.c:218-219 | in every reachable state, a log_write within the reservation, of a new block or of one logged before, panics exactly if the log is full: with more than LOGSIZE log blocks if the header is, and then only for a block logged before with every reservation used up; with fewer if every slot is taken, when up to two blocks more than that may be logged |
| Log.LoggingAgainFails | log.c:218-227 | a log of any size can get to where logging a block again panics |
| Log.BuffersSuffice | bio.c:81-92 | a commit is left a buffer in every run if and only if there are more buffers than blocks that can get logged: LOGSIZE, or one more than the log has if that is less, or none if it has only the header |
| Log.LargerLogNeedsBuffers | param.h:12 | with NBUF buffers and more than LOGSIZE log blocks, a transaction can pin every buffer |
| Log.PinsBound | log.c:231 | each pinned block has a buffer of its own |
| Log.ReadUnpinned | bio.c:96-106 | a block that is not pinned finds a buffer exactly if not all are pinned |
| Log.CopyToLog | log.c:183-188 | one log block gets the cached value of its home block and nothing else changes on disk or in the view; panics exactly if every buffer is pinned |
| Log.CopyHome | log.c:75-80 | one home block gets the value of its log block and its buffer is no longer pinned |
| Log.Log.WriteLog | log.c:177-190 | the i-th changed block is in the i-th block behind the header, and every state on the way recovers to the old file system; panics exactly if every buffer is pinned, and then before any write |
| Log.Log.InstallTrans | log.c:69-82 | all logged blocks are home; every state on the way is a crash point of recovery |
| Log.Log.FillHead | log.c:107-110 | the header block names exactly the logged blocks |
| Log.Log.WriteHead | log.c:101-113 | one atomic write puts the count and the block numbers into the first block of the log |
| Log.Log.ReadHead | log.c:85-96 | the count and the block numbers are those in the first block of the log |
| Log.Log.Finish | log.c:119-121 | installs and erases the log: the disk is the recovered one |
| Log.Log.WriteTransaction | log.c:196-197 | the log and then the header are written; all states before the last recover to the old file system; panics exactly if every buffer is pinned |
| Log.Log.Commit | log.c:192-202 | for a transaction that fits in the log: the file system on disk is the one the cache showed; every disk state of the commit is classified as before or after the commit point; panics exactly if the transaction is not empty and has as many blocks as there are buffers |
| Log.Log.ReadFirst | log.c:182 | a commit of more blocks than slots panics on its first log block exactly if every buffer is pinned |
| Log.Log.RecoverFromLog | log.c:115-122 | leaves the recovered disk with an empty log |
| Log.Log.Boot | log.c:65 | every disk state since the reboot recovers to the file system that recovery leaves |
| Log.Log.constructor | log.c:54-66 | a reboot from any well-formed disk recovers it, and the history of the disk starts with the recovered file system |
| Log.Log.BeginOp | log.c:125-141 | starts exactly when no commit runs and the reservation fits, and the state of the space stays a reachable one |
| Log.Log.FindLogged | log.c:224-227 | the place of a block among those logged, or their number |
| Log.Log.Record | log.c:224-230 | the block is among those logged, once |
| Log.Log.LogTest | log.c:218-221 | passes exactly if header and log have room and an operation is outstanding, and always within the reservation if the log has more than LOGSIZE blocks |
| Log.Log.LogAppend | log.c:223-232 | whatever others logged since the test, the block is among those logged, once, its buffer is pinned, and the header has room for it |
| Log.Log.EndOp | log.c:145-174 | the last operation commits; at each disk state recovery gives all or nothing of the transaction; other operations only give up their reservation; says exactly when the commit panics for lack of buffers and when it overruns the log, neither of which can happen with more than LOGSIZE log blocks and buffers |
| Log.Log.CommitLast | log.c:165-173 | the committed file system is added to the history of the disk |
| Log.LongerHistory | log.c:192-202 | with a commit, every disk state still recovers to the file system of the last commit before it |
| Log.Log.EveryCrash | log.c:54-233 | over any run of operations since the reboot in which no commit overran the log, a crash at any disk state recovers to the file system of the last commit before it |
| Skiplist.LinkIn | proc.c:41-59 | changing the links of two neighbours links a node in on a level |
| Skiplist.LinkOut | proc.c:141-150 | changing the links of two neighbours takes a node off a level |
| Skiplist.SplicedLinked | proc.c:41-59 | insert_to_level behind a node of a level links the new node in there and leaves all other levels alone |
| Skiplist.RacingInserts | proc.c:41-59 | of two insertions that read the same successor before either writes, only the second is in the level |
| Skiplist.InsertsInTurn | proc.c:41-59 | if the second reads what the first wrote, both are |
| Skiplist.CutLinked | proc.c:141-150 | taking a node off its level leaves the others linked and all other levels alone |
| Skiplist.LevelRank | proc.c:103-123 | on every level the nodes up to a deadline come first |
| Skiplist.StepDown | proc.c:113-116 | going down stays in the tower, with the same process and deadline |
| Skiplist.InsertDone | proc.c:97-135 | a tower linked in on all its levels at the rank of its deadline leaves a skip list |
| Skiplist.RemoveDone | proc.c:137-154 | a tower cut off on all its levels leaves a skip list |
| Skiplist.FoundIff | proc.c:156-187 | the search meets a process on a level exactly when no equal ahead of it reaches that level |
| Skiplist.AllOrNothing | proc.c:156-187 | where the search meets a process first is the top of its tower |
| Skiplist.SecondIsBlocked | proc.c:156-187 | the second of two processes with one deadline is blocked if its tower is no taller |
| Skiplist.EqualNotDeleted | proc.c:97-187 | in a list of any number of levels: two insertions with one deadline, the second no taller, after which deleting the second process changes nothing |
| Skiplist.SkipList.constructor | proc.c:19-37 | the headers alone are an empty skip list |
| Skiplist.SkipList.LastUpTo | proc.c:110-112 | stops at the last node of the level with a deadline of at most the given one |
| Skiplist.SkipList.FindPrevs | proc.c:103-123 | finds that node on every level of the new tower |
| Skiplist.SkipList.InsertNode | proc.c:97-135 | the skip list gets the tower behind all towers with an earlier or equal deadline |
| Skiplist.SkipList.FirstFrom | proc.c:164-169 | stops at the first node of the level not before the deadline, or at the last node |
| Skiplist.SkipList.BackUp | proc.c:175-177 | ends at a node before the deadline, or leaves the list if and only if the deadline is at most that of the headers |
| Skiplist.SkipList.DeleteFromLevels | proc.c:137-154 | the whole tower is gone and its nodes are freed |
| Skiplist.SkipList.DeleteNode | proc.c:156-187 | removes the whole tower, or changes nothing, the latter exactly if the process is absent or blocked by an equal ahead with as tall a tower |
| Skiplist.SkipList.GetMinimum | proc.c:189-195 | the process with the earliest deadline, first come among equals |
| Sched.QRankSplits | proc.c:110-112 | the rank separates the deadlines up to a value from those above it |
| Sched.QInsertOk | proc.c:97-135 | insertion keeps the queue sorted, with each process once |
| Sched.StepKeepsPids | proc.c:285-305 | process numbers stay unique over every step |
| Sched.StepKeepsQueue | proc.c:554-632 | every step keeps the queue equal to the RUNNABLE processes outside the fork window, each once under its current deadline |
| Sched.StepKeepsCpus | proc.c:567-632 | the RUNNING processes are those on a processor, each on one |
| Sched.StepKeepsInv | proc.c:402-780 | every step keeps the whole invariant |
| Sched.NiceValues | proc.c:218-221 | which nice values give a deadline behind the headers of the skip list, at which times; -100 at tick 0 does not |
| Sched.NiceSpacing | proc.c:218-221 | at any tick, deadlines differ by 50 for each level of niceness, and that of level -20 is 50 ticks away |
| Sched.DeadlineKept | proc.c:619-624 | over any run, a process keeps its deadline unless it is inserted or ends a turn |
| Sched.NiceOrder | proc.c:445-447 | of two children inserted at one tick, the nicer one is behind as long as both wait under the deadlines they got then, whichever was inserted first and whatever else happened |
| Sched.TurnLasts | proc.c:582-624 | over any run, a process has 50 ticks from its dispatch, and gets a new deadline exactly if it gives the processor up after all of them |
| Sched.StepKeepsNice | proc.c:445-447 | nice values stay from -20 on if only such are given |
| Sched.EveryReachableState | proc.c:554-632 | in every reachable state, whoever is dispatched waits and has an earliest deadline |
| Sched.StepAhead | proc.c:218-221 | near a deadline, no step adds a process ahead of the waiting one and each end of a turn removes one |
| Sched.BoundedOvertaking | proc.c:579-624 | with nice values from -20 on, the turns that end before the waiting process runs are at most as many as there were processes ahead of it |
| Sched.OvertakingCounted | proc.c:579-624 | a turn that begins and ends in a run is among those counted |
| Kernel.EntriesInsert | proc.c:97-135 | inserting a tower at its rank is inserting its entry at its rank |
| Kernel.FirstNotBlocked | proc.c:583 | the first process is never blocked from deletion |
| Kernel.RandomizeMaxLevel | proc.c:68-79 | one level per draw of 0; out of range exactly when every draw is 0 |
| Kernel.LeavesList | proc.c:158-177 | delete_node would leave the list at its header exactly for the nice values and times at which the deadline is at most -1 |
| Kernel.TooTall | proc.c:68-79 | with every draw 0, one level more than there is |
| Kernel.Kernel.Reached | proc.c:402-780 | what holds in every reachable state holds of the table and the skip list together |
| Kernel.Kernel.AllocProc | proc.c:285-305 | the first free slot gets the next process number |
| Kernel.Kernel.ForkFails | proc.c:415-420 | the slot is free again |
| Kernel.Kernel.ForkReady | proc.c:438-442 | the child is RUNNABLE and not in the queue yet |
| Kernel.Kernel.InsertProc | proc.c:97-135 | the queue that the skip list stands for gets the process at its rank |
| Kernel.Kernel.ForkInsert | proc.c:445-447 | the child gets the nice value and a deadline of 50 ticks for each level from -20 up to it, and is queued; no other process changes |
| Kernel.Kernel.RemoveHead | proc.c:583 | deleting the dispatched process always succeeds and removes the head of the queue |
| Kernel.Kernel.Schedule | proc.c:567-583 | dispatches the head of the queue, and nothing only if the queue is empty |
| Kernel.Kernel.SwitchTo | proc.c:579-583 | the process at the head of the queue runs with a full quantum and has left the queue |
| Kernel.Kernel.YieldCpu | proc.c:664-670 | the process is queued again, under a new deadline exactly when its quantum is used up |
| Kernel.Kernel.SleepOn | proc.c:717-720 | the process sleeps and is in no queue |
| Kernel.Kernel.ExitProc | proc.c:497-498 | the process is a zombie and is in no queue |
| Kernel.Kernel.ReapChild | proc.c:519-531 | the slot is free and the number is returned |
| Kernel.Kernel.Wakeup1 | proc.c:735-746 | exactly the processes asleep on the channel become RUNNABLE and are queued |
| Kernel.Kernel.SleepAndWakeup | proc.c:717-746 | a process that sleeps on a channel is RUNNABLE and in the queue after a wakeup on that channel, and asleep and not in the queue after one on another |
| Kernel.Kernel.KillPid | proc.c:761-780 | the process is marked and, if asleep, woken; fails exactly if no slot has the number |
| Kernel.Kernel.Timer | trap.c:105-109 | the clock, the sleepers woken, the quantum and the deadline after a timer interrupt, and no other process changed |
| Fs.PutThenGet | fs.c:391-394 | writing one word of an indirect block and reading any word |
| Fs.WordBytes | fs.c:390-394 | word w is bytes 4w to 4w + 3, least significant first; writing it leaves the other 508 bytes alone |
| Fs.ContentLies | fs.c:453-476 | byte k of a file is byte k mod 512 of block k div 512, which the inode names, or from the thirteenth on the four bytes of its word in the indirect block |
| Fs.ReferencedOnce | fs.c:372-400 | no block is in two slots of any inodes |
| Fs.Filled | fs.c:372-400 | giving a free block to an empty slot keeps the ownership and changes no file |
| Fs.DataWritten | fs.c:499-503 | writing into a data block changes those bytes of that file and nothing else |
| Fs.SpliceReads | fs.c:482-511 | what was written at an offset is what is read there; the rest is as before |
| Fs.FreedMore | fs.c:414-431 | each block freed is still marked when it is freed |
| Fs.Truncated | fs.c:408-435 | exactly the blocks of the inode lose their mark |
| Fs.FileSystem.Balloc | fs.c:56-78 | the first free block, marked and zeroed, or all are taken |
| Fs.MovedAll | fs.c:372-400 | all wanted blocks come to be there if and only if there were as many free blocks as missing ones |
| Fs.FileSystem.AllocSlot | fs.c:379-380 | a slot of the inode gets a block that nobody owned and no file changes; fails exactly if no block is free |
| Fs.FileSystem.AllocWord | fs.c:391-394 | a word of the indirect block gets a block that nobody owned and no file changes; fails exactly if no block is free |
| Fs.FileSystem.Direct | fs.c:378-382 | the address of one of the first twelve blocks is in the inode; it is allocated if missing |
| Fs.FileSystem.Indirect | fs.c:386-388 | the indirect block, allocated and zero if it was missing |
| Fs.FileSystem.Bmap | fs.c:372-400 | the address of a file block: what the inode says, or bytes 4w to 4w + 3 of the indirect block, of which the other bytes and the other addresses do not change; allocates only what is missing and changes no file; fails only beyond the largest file or when no block is left free |
| Fs.FileSystem.ReadPiece | fs.c:469-472 | at least one byte of the file from a place on, as far as its block goes, and nothing is allocated |
| Fs.FileSystem.Readi | fs.c:453-476 | returns the slice of the file's bytes, with the source's bounds, and allocates nothing |
| Fs.FileSystem.WriteThenRead | fs.c:453-511 | after a write that succeeds, a read of the same range gives the bytes written |
| Fs.FileSystem.WriteChunk | fs.c:499-503 | one piece within a block is written, in this file only; fails only if the block is missing and none is left free |
| Fs.FileSystem.WritePiece | fs.c:499-503 | one more piece is written, or the free blocks were too few for the whole write |
| Fs.FileSystem.WriteAll | fs.c:498-504 | all bytes are written if and only if there were as many free blocks as missing ones, and otherwise a prefix of them |
| Fs.FileSystem.Grow | fs.c:506-509 | the larger size is in memory and on disk and keeps all files in order |
| Fs.FileSystem.Writei | fs.c:482-511 | the file is spliced if and only if the offset and length are allowed and there are as many free blocks as the write misses; other files are unchanged, all blocks below the size stay mapped, and the inode on disk stays equal to the one in memory |
| Fs.FileSystem.FreeDirect | fs.c:414-419 | the direct blocks are freed and their slots cleared |
| Fs.FileSystem.FreeWords | fs.c:422-428 | the blocks named in the indirect block are freed |
| Fs.FileSystem.FreeIndirect | fs.c:421-431 | the indirect block goes last and its slot is cleared |
| Fs.FileSystem.Itrunc | fs.c:408-435 | the file is empty, exactly its blocks are free, other files are unchanged, no free block is freed |
| Umalloc.RequestWorks | umalloc.c:52-69 | a request gets room and sbrk is asked for what is recorded exactly up to the limit |
| Umalloc.Room | umalloc.c:69 | the block is large enough, with less than one unit to spare, exactly if rounding up does not wrap |
| Umalloc.HugeRequestGetsNothing | umalloc.c:69 | a request that wraps gets a block of one header |
| Umalloc.HalfRequestShrinks | umalloc.c:54 | a request above the limit asks sbrk for a negative amount |
| Umalloc.Disjoint | umalloc.c:64-90 | blocks that tile the memory do not overlap |
| Umalloc.MergeTiles | umalloc.c:33-42 | two blocks that touch, made one, still tile the memory |
| Umalloc.SplitTiles | umalloc.c:79-81 | a block cut in two still tiles the memory |
| Umalloc.Heap.FindSpot | umalloc.c:30-32 | the search ends, at the place in the circular list where the block belongs |
| Umalloc.Heap.JoinNext | umalloc.c:33-37 | the block swallows the next one exactly if they touch |
| Umalloc.Heap.JoinPrev | umalloc.c:38-42 | the previous one swallows the block exactly if they touch; then no free blocks touch |
| Umalloc.Heap.Free | umalloc.c:25-44 | the block is no longer live, the other live blocks are as before, the list is sorted and coalesced, and the next search starts at the block before it |
| Umalloc.Heap.Search | umalloc.c:74-88 | next fit: the first large enough block from freep on, or every block is too small |
| Umalloc.Heap.Take | umalloc.c:76-84 | a block of just the units asked for becomes live, and the next search starts at the block before it |
| Umalloc.Heap.Morecore | umalloc.c:47-61 | the granted memory, of 4096 units or as many as asked for, joins the heap and the list has a large enough block |
| Umalloc.Heap.Malloc | umalloc.c:64-90 | a new live block, disjoint from the others, that tiles the memory with them; 0 only if sbrk refused and no free block is large enough |
| Umalloc.Heap.Scribble | umalloc.c:64-90 | writing into a live block does not disturb the allocator |
| Vm.Kmem.Kalloc | kalloc.c:84-96 | the first free frame, no longer free |
| Vm.Kmem.Kfree | kalloc.c:61-78 | the frame is the first free one, filled with junk |
| Vm.ScanSkips | vm.c:265-277 | a stretch without entries adds nothing to a page-by-page scan |
| Vm.ClearOwned | vm.c:269-276 | clearing an entry takes exactly its frame from the directory |
| Vm.OnlyTables | vm.c:234-246 | with its old entries a directory has its old frames and at most page tables more |
| Vm.PageDir.constructor | vm.c:124-126 | a new directory has no user pages |
| Vm.PageDir.FreePage | vm.c:269-276 | the page's entry, in its table and place there, is cleared and its frame is free |
| Vm.PageDir.ScanStep | vm.c:265-277 | freeing one page or skipping an absent table keeps up with the page-by-page scan |
| Vm.PageDir.DeallocUvm | vm.c:256-279 | clears exactly the entries between the sizes and frees exactly the frames of a page-by-page scan, in its order |
| Vm.NeedStep | vm.c:232-247 | adding a page takes its frame, and one for its table if that is missing, off what the rest needs |
| Vm.NeedAll | vm.c:325-339 | a directory without tables needs one for each 1024 pages |
| Vm.PageDir.WalkPgdir | vm.c:36-55 | makes the missing page table and changes no entry; fails exactly if it is missing and no frame is free |
| Vm.PageDir.MapPage | vm.c:61-80 | entry v mod 1024 of table v div 1024 is set and no other, or nothing changes, exactly if its table is missing and no frame is free |
| Vm.PageDir.AddPage | vm.c:332-338 | a new frame with the given bytes at the page, exactly if the frames for it and its table are there; else the frames are accounted for |
| Vm.PageDir.GrowOne | vm.c:233-247 | one more page of zeros, exactly if the frames for it are there, or all pages added so far are undone |
| Vm.PageDir.GrowAll | vm.c:232-248 | all pages, if and only if the free frames are enough for them and the missing tables |
| Vm.PageDir.AllocUvm | vm.c:222-249 | succeeds if and only if the size is allowed and the free frames are enough for the pages and the missing tables; then the pages are zero pages in frames that were free, else the entries are as before and only page tables stay; no frame is lost either way |
| Vm.PageDir.FreeTables | vm.c:291-296 | every page table is freed once |
| Vm.PageDir.FreeVm | vm.c:284-298 | all frames of the directory are free, each once |
| Vm.SetupKvm | vm.c:119-136 | a directory without user pages, if and only if there are frames for it and its kernel tables; else nothing is taken |
| Vm.GiveBack | vm.c:342-344 | after a failed copy the free frames are those before it |
| Vm.CopyOne | vm.c:325-339 | one more page is copied, exactly if the frames for it are there, or everything taken is given back |
| Vm.CopyUvm | vm.c:316-345 | succeeds if and only if the free frames are enough for the directory, the kernel tables, the pages and their tables; the child then has exactly the parent's pages, with equal bytes and flags, in frames of its own; on failure the free frames are those before; the parent is unchanged |
| Sleep.StillComing | proc.c:735-755 | a wakeup on its way to a process stays on its way over any step that does not wake it |
| Sleep.StepKeepsInv | proc.c:693-755 | every step of every process keeps lock ownership and the absence of missed wakeups |
| Sleep.NoLostWakeup | proc.c:693-755 | in every interleaving, while the condition holds and a process sleeps, a wakeup is on its way to it, for an ordinary lock and for ptable.lock |
| Sleep.MutualExclusion | proc.c:712-729 | neither lock is ever held twice |
| Sleep.WokenIff | proc.c:735-775 | a sleeping process becomes RUNNABLE by a wakeup that comes to it, by a kill, and by nothing else |
| Sleep.WakeupEnds | proc.c:750-755 | after a wakeup its caller owes none, and holds lk exactly if it did before |
| Sleep.StepMoves | proc.c:693-731 | a process in sleep stays where it is or goes on to the next place, and leaves sleep only with lk |
| Sleep.SleepReturnsHolding | proc.c:693-731 | in every run, a process that has found the condition false goes through the places of sleep in order and is next elsewhere only when it holds lk again, for an ordinary lock and for ptable.lock |
| Sleep.ComingUntilWoken | proc.c:735-755 | a wakeup cannot end before it has woken the process |
| Sleep.HolderSteps | proc.c:712-729 | the holder of ptable.lock waits for nothing and the holder of the other lock at most for ptable.lock |
| Sleep.NoDeadlock | proc.c:712-729 | in every reachable state a process that is not asleep can step, or the holder of the lock it waits for can, or the holder of the lock that one waits for can |
| Pipe.Wraps | pipe.c:13-20 | the wrap-around of the counters does not show in the slots |
| Pipe.RingPut | pipe.c:93 | writing a slot of a ring that is not full appends to its contents |
| Pipe.RingGet | pipe.c:116 | the contents are the byte at the read counter and what comes after it |
| Pipe.Pipe.constructor | pipe.c:33-36 | an empty pipe, open at both ends |
| Pipe.Pipe.PutByte | pipe.c:93 | one byte is stored last; bytes returned and buffered are the bytes stored |
| Pipe.Pipe.GetByte | pipe.c:116 | the oldest byte is returned; bytes returned and buffered are the bytes stored |
| Pipe.PlayedLater | pipe.c:79-121 | whatever other processes do, nothing written or read is undone and nothing is written in a process's name |
| Pipe.WritingMeans | pipe.c:79-98 | on the queue of which the pipe is a ring: the writer's bytes go in in order; it ends short only with the queue full, failing if no reader is left or it was killed when it last woke, and waiting on only if all its sleeps are over |
| Pipe.ReadingMeans | pipe.c:101-111 | on the same queue: the reader finds bytes or no writer; while the queue is empty it fails only if it was killed when it last woke, and waits on only if all its sleeps are over |
| Pipe.Pipe.Others | pipe.c:59-121 | any sequence of puts, gets and closes on the ring is the same sequence on the queue |
| Pipe.Pipe.Write | pipe.c:79-98 | under any interleaving, the result, the queue, the number of bytes and the number of sleeps are those of the write on the queue |
| Pipe.Pipe.Take | pipe.c:112-117 | the oldest bytes, as many as asked for or there are |
| Pipe.Pipe.Read | pipe.c:101-121 | under any interleaving, the reader waits as on the queue and then takes the oldest bytes, as many as asked for or there are; none only if none were asked for or no writer is left |
| Shell.WordToken | sh.c:296-308 | a word followed by a space is read as that word |
| Shell.SymbolToken | sh.c:278-295 | a symbol followed by a space is read as that symbol |
| Shell.RedirsParse | sh.c:376-398 | redirections are read as they are printed |
| Shell.SimpleParses | sh.c:427-446 | so is a simple command |
| Shell.BlockParses | sh.c:401-414 | so is a line in parentheses |
| Shell.AtomParses | sh.c:417-447 | so is any command in the place of a simple one |
| Shell.PipeParses | sh.c:363-373 | so is any command in the place of a pipeline |
| Shell.BackedParses | sh.c:350-354 | so is any command before ampersands |
| Shell.LineParses | sh.c:346-360 | so is any command as a line |
| Shell.RoundTrip | sh.c:329-343 | printing a legal command and parsing gives the command back |
| Shell.LineLegal | sh.c:346-447 | every command that is parsed has non-empty words without spaces, symbols and NUL, and fewer than MAXARGS arguments |
| Shell.ParsedIffLegal | sh.c:329-447 | a command is the result of parsing some line without NUL if and only if it is legal |
| Shell.Canonical | sh.c:329-343 | printing what a line was parsed as gives a line that is parsed as the same |
| Spelling.CmdAlike | sh.c:329-447 | lines with the same tokens are parsed alike, also on the panics |
| Spelling.AlikeBehind | sh.c:267-309 | lines with the same tokens have them also behind a common start, unless a token would run over its end |
| Spelling.SpaceIsFree | sh.c:263-309 | white space may be put in or left out anywhere but inside a word and between the two characters of >> |
| Spelling.AppendIsOutput | sh.c:289-395 | a line means the same with >> for > |
| Spelling.WordSpelled | sh.c:296-308 | a word is read up to the first character that no word has |
| Spelling.RedirSpelled | sh.c:376-398 | with any white space before sign and file, < is for input and > and >> are for output |
| Spelling.OneWordLine | sh.c:263-309 | any characters but the five of white space, the seven symbols and NUL make up one word |
| Spelling.Parentheses | sh.c:401-414 | a line in parentheses is the command in them |
| Spelling.Operators | sh.c:346-398 | what the signs ; and vertical bar and & and < and > between words mean, without white space |
| Spelling.ArgsLimit | sh.c:432-443 | a command of up to nineteen words is read, and one of more panics |
| Parser.Parser.GetToken | sh.c:267-309 | the cursor version reads the token of the grammar, and a word's place is that of a whole word |
| Parser.Parser.Peek | sh.c:312-321 | skips white space and says whether the next character is one of those given |
| Parser.Parser.ReadHead | sh.c:277-301 | the kind and the length of the token at the cursor |
| Parser.Parser.ReadRedirs | sh.c:376-398 | agrees with the grammar, also on the panic |
| Parser.Parser.ReadWords | sh.c:432-446 | agrees with the grammar, also on the panics |
| Parser.Parser.ReadBlock | sh.c:401-414 | agrees with the grammar, also on the panics |
| Parser.Parser.ReadExec | sh.c:417-447 | agrees with the grammar, also on the panics |
| Parser.Parser.ReadPipe | sh.c:363-373 | agrees with the grammar, also on the panics |
| Parser.Parser.ReadBacks | sh.c:351-354 | agrees with the grammar |
| Parser.Parser.ReadLine | sh.c:346-360 | agrees with the grammar, also on the panics |
| Parser.EndsInside | sh.c:449-494 | words end at the end of the line or at a character that no word has |
| Parser.WordSurvives | sh.c:449-494 | no NUL lands in a word, and each word ends at its own |
| Parser.Parser.NulTerminate | sh.c:451-494 | a NUL is written at the end of each word and nowhere else |
| Parser.Parser.ReadCmd | sh.c:329-343 | succeeds exactly if the grammar does, and the strings then in the buffer make up exactly the command of the grammar |
| Grep.HereFirst | grep.c:85-96 | a pattern fits if its first item fits a piece and the others fit what follows |
| Grep.PlainMeans | grep.c:73-96 | a pattern without special characters matches exactly the texts it occurs in |
| Grep.WholeMeans | grep.c:73-96 | between caret and dollar it matches exactly itself |
| Grep.DotAndStar | grep.c:85-106 | a dot matches any one character, and a starred one any number of it |
| Grep.Match | grep.c:73-82 | true exactly if some place in the text, or its start after a caret, can be cut into pieces that fit the pattern |
| Grep.MatchHere | grep.c:85-96 | true exactly if the start of the text can be cut into such pieces |
| Grep.MatchStar | grep.c:99-106 | true exactly if some number of fitting characters is followed by a fit of the rest |

## Left out

- Bio.Bcache.Bread: a buffer locked by another process would be waited for; the model takes the lock to be free, and the same holds of all cache operations, which run one at a time.
- Bio.Bcache.Bget: device 0 is excluded, because buffers that were never used carry it and could be taken for its blocks.
- Log.Log.EndOp: the last operation commits with no buffer held by anyone; readers that hold buffers during a commit are not modelled. Nothing is said about the disk after a commit has overrun the log, of which OverrunHarmlessIff describes the writes up to the header.
- Log.Log.LogTest: a process that calls log_write outside an operation while others are in one passes the source's test; the model takes it to be in one whenever any is.
- Log.Log.BeginOp: says whether the operation may start; the sleep until it may is modelled in general in Sleep.dfy.
- Kernel.Kernel.ForkInsert: the insertion is one step, although nicefork holds no lock over it; RacingInserts says what happens if two of them interleave. It takes the deadline to come after that of the headers, which the source does not check; NiceValues says for which nice values it does.
- Kernel.Kernel.InsertProc: takes the tower to be lower than the number of levels (RandomizeMaxLevel says when it is) and a page for each node to be there, as the source does.
- Kernel.Kernel.SleepOn: the channel is not reset when the process runs again, which nothing looks at unless it sleeps.
- Kernel.Kernel.Schedule: context switches and the parent and child links of wait are not modelled.
- Umalloc.Heap.Malloc: memory granted by sbrk lies above the header base and is as much as the allocator records; RequestWorks says for which requests it asks for that much.
- Vm.PageDir.MapPage: maps one page, as its callers here do; mapping a range is used for the kernel half only.
- Vm.SetupKvm: the kernel half of a directory is a number of page table frames whose contents are not modelled.
- Vm.Kmem.Kfree: the panics on addresses outside the pool are not modelled, frames are those of the pool.
- Freeing the page of a pipe when both its ends are closed.
- Parser.Parser.ReadWords: redirections are collected and wrapped around the command at its end; the source wraps them at once around a record that it goes on filling, with the same tree as outcome.
- Fs.FileSystem.Writei: when the free blocks are too few the source panics; the model then says only that the file system is still in order and other files are unchanged. Other processes do not allocate blocks between those of one write.
- The packing of bitmap bits and of inodes into blocks, device files, the inode cache, directories and path names.
- Wrap-around of the tick counter, of process numbers and of deadlines.
- Boot, drivers, traps other than the timer, system calls, exec, the console and the small user programs.
- The standalone skiplist.c and skip_list.py, which are not part of the kernel.
- The reading of lines from a file in grep.c, and the running of parsed commands in sh.c.
