# KusaOS: message passing, files, memory and terminals

KusaOS is a small teaching operating system in the style of MINIX. Its tasks, servers and processes talk by
synchronous messages; a file system task, a memory task and a terminal task serve the rest. This project
models the state machines of the system and proves what they keep.

- `Ipc`, `IpcProofs`, `ProcTable`, `IpcRuns`, `IpcHistory`, `Scheduler`, `PolicyRuns`, `IpcExamples`: kernel/proc.c. `Ipc` is message
  passing without pointers (who waits for whom, in which order, what the buffers hold). `ProcTable.Kernel` is the
  process table itself, with flag words, wait fields and intrusive sending queues that are changed in place; each of
  its methods is proved to do exactly the step of `Ipc`. `IpcRuns` is about every run from boot on, made of system
  calls, interrupts, clock ticks, computation, and forks in which nobody is queued on the parent or the free slot.
  `IpcHistory` reads off a log of the run whom each slot waits for and which interrupts it was given.
- `SectorMap`, `SectorSlots`, `FileData`: fs/. The sector map on disk with its in-place bit loops, runs of creating and
  removing files, what mkfs writes, and the chunked transfer loop.
- `FileTable`, `FileProofs`, `FileTables`, `FileRuns`: fs/ again. The i-node cache, the i-node map, descriptors and
  reference counts; `FileTables.Tables` changes them in place, each method by exactly one step of `FileTable`, and
  `FileRuns` is about every run from mkfs on, made of opening, creating, closing, seeking, removing, forking and
  exiting. `FileHandles` says what such a run means without tables or counts: handles with a mode, a file and a position
  that open slots share, and a list of i-nodes.
- `Buddy`: the buddy allocator of mm/main.c.
- `Console`, `Tty`: kernel/console.c and kernel/tty.c.
- `Exec`: the argument block that lib/exec.c builds and mm/exec.c moves.

What turned out not to hold is stated exactly, with both directions proved, and with a run that reaches it:

- A receive naming a process that is not sending yet, by a process with a pending interrupt, fails the last assertion
  of `msg_receive` (kernel/proc.c:532); it fails in no other case (`IpcRuns.ReceiveHaltsExactly`,
  `IpcExamples.ReceiveHalts`).
- fork copies the head of the parent's sending queue with the rest of its slot. The table stays in order exactly when
  nobody is queued on the parent or on the free slot (`IpcProofs.ForkKeepsInv`); INIT can be queued on between its request
  and MM's fork (`IpcExamples.ForkCorrupts`).
- Under the priority policy a tick can pick only one of the user slots beyond the shells: the last occupied one of
  highest priority (`Scheduler.OnlyTheBestUserIsPicked`). The others are left to `block`, which always goes round robin,
  so one of them becomes current exactly when it is next in turn as a process blocks (`PolicyRuns.BecomesCurrent`,
  `PolicyRuns.OthersRunToo`).
- `alloc_smap_bit` looks at the first byte of a run only. On the map that mkfs writes, the file next to cmd.tar is given
  sectors of cmd.tar exactly when a whole free map byte lies before it (`SectorSlots.TarOverwritten`); on a partition of
  40257 sectors that is the fifteenth file (`SectorSlots.LoseCmdTar`). Freeing restores the map exactly when the whole
  run was free (`SectorSlots.FreeUndoesAlloc`), so not after that (`SectorSlots.TarFreed`).
- `do_rdwt` does not clip the length: a request stays within its limit exactly when it would have anyway
  (`FileData.LimitKeptExactly`). A read past the end of a file makes it longer (`FileData.ReadPastEnd`), and a write past
  the last sector goes into the next file (`FileData.OverrunsNextFile`).
- Removing a directory does not look at who has it open. A file or directory made after that gets its i-node number, and
  `new_inode` sets the count of the live slot to 1. The tables stay in order exactly when the number handed out is not
  open (`FileRuns.StepSoundExactly`). Over all runs that make nothing of an open number no open file can be removed
  (`FileRuns.OpenFilesStay`), and a run in which no directory is removed while it is open makes nothing of an open number
  (`FileRuns.PrudentRunsNeverClash`). Beyond that it fails: a directory is made, opened and removed, a file is made and
  gets its number, the directory is closed, and the file is removed while it is open (`FileRuns.OpenFileRemoved`).
- A refused unlink keeps the reference it has just taken, so the file can never be removed again in such runs
  (`FileRuns.RefusedForEver`, `FileRuns.LeakExample`).
- `out_char` never returns for a backspace at the top left cell of a window that is not at the start of a buffer that
  has not wrapped yet; it returns in every other case (`Console.OutReturns`, `ConsoleExamples.BackspaceSticks`). A
  character typed while the window is scrolled away from a cursor on the last line clears up to 79 cells behind the
  console (`Console.SpillsExactly`, `ConsoleExamples.TypingSpills`).
- do_exec reads the argument block after loading the program. The new program gets the arguments exactly when the block
  as it is then is still an argv (`Exec.DoExec`); a segment of one byte can spoil it (`Exec.SegmentWrecks`).
- `alloc` of more than `BUDDY_SIZE` pages settles on a block that is too small (`Buddy.BlockSizeFits`, `Buddy.TooBig`).

Steps are atomic: interrupts do not land inside a send or a receive. A fork copies a slot and its memory at once; the file
system counts the copied open slots in a later step. `INTERRUPT` is a name
that no process has, although the code indexes the table with it (kernel/proc.c:456). A message buffer is a pair of a
slot and an address, so `va2la` is the identity on these and buffers of different slots do not overlap. A panic or a
failing assertion ends a run: steps return `None` or `ok == false`. The disk is an ideal array of sectors, and there is
one device. Random numbers, boot-time cursor and directory look-ups are parameters. Where a comment in the source and
its code differ, the code is followed.

## Model

| member | source | states |
|---|---|---|
| IpcProofs.BootedInv | kernel/main.c:41-124 | the table that booting leaves behind satisfies the whole invariant |
| IpcProofs.NoCycle | kernel/proc.c:281-306 | when all chains of senders end, no slot waits for itself |
| IpcProofs.ChainsEndWithEdge | kernel/proc.c:329-360 | a blocking send to a slot that does not wait for the sender keeps every chain finite |
| IpcProofs.EdgeClosesCycle | kernel/proc.c:329-331 | a send to a slot that waits for the sender would leave a chain without an end |
| IpcProofs.ChainsEndWithoutEdge | kernel/proc.c:342-345 | releasing a sender, or blocking one that does not send, keeps every chain finite |
| IpcProofs.NextReadyIsReady | kernel/proc.c:110-125 | round robin picks a ready slot if there is one, and passes over none that is ready |
| IpcProofs.SendKeepsInv | kernel/proc.c:322-384 | a send that does not panic keeps the invariant: queues agree with flags, no rendezvous is missed, no cycle |
| IpcProofs.ReceiveKeepsInv | kernel/proc.c:401-536 | so does a receive |
| IpcProofs.SyscallKeepsInv | kernel/proc.c:139-175 | so does the whole system call |
| IpcProofs.InterruptKeepsInv | kernel/proc.c:546-569 | so does an interrupt for any slot |
| IpcProofs.ForkKeepsInv | mm/forkexit.c:58-61 | fork keeps the invariant if and only if nobody is queued on the parent or on the free slot |
| ProcTable.Kernel.constructor | kernel/main.c:41-124 | the booted process table means the booted state |
| ProcTable.Kernel.RrSchedule | kernel/proc.c:110-125 | ends, and makes the next ready slot in cyclic order current |
| ProcTable.Kernel.HighestUser | kernel/proc.c:62-70 | the last occupied user slot of highest priority |
| ProcTable.Kernel.PrioritySchedule | kernel/proc.c:57-89 | ends, and picks the slot of the priority policy for this tick |
| ProcTable.Kernel.Deadlock | kernel/proc.c:281-306 | ends, and is true exactly when src is reached from dest along p_sendto |
| ProcTable.Kernel.Enqueue | kernel/proc.c:362-373 | the sender is appended to the destination's queue and all other queues stay |
| ProcTable.Kernel.Dequeue | kernel/proc.c:489-502 | the sender, wherever it stands, is removed from the queue and all other queues stay |
| ProcTable.Kernel.FindSender | kernel/proc.c:463-475 | the walk finds the sender's place and the one before it |
| ProcTable.Kernel.MsgSend | kernel/proc.c:322-384 | panics exactly when the abstract send does, and else has exactly its effect on the whole table |
| ProcTable.Kernel.MsgReceive | kernel/proc.c:401-536 | fails its assertion exactly when the abstract receive does, and else has exactly its effect |
| ProcTable.Kernel.InformInt | kernel/proc.c:546-569 | has exactly the effect of the abstract interrupt |
| ProcTable.Kernel.SysSendrec | kernel/proc.c:139-175 | the system call on pointers is the system call of the model, and keeps the invariant |
| ProcTable.Kernel.Fork | mm/forkexit.c:58-99 | the copied slot on pointers is the fork of the model |
| IpcRuns.Safety | kernel/proc.c:333-380 | in no reachable state does a process wait for itself or is a rendezvous or interrupt missed |
| IpcRuns.PanicsExactly | kernel/proc.c:329-331 | a send panics if and only if blocking would leave a chain of senders without an end |
| IpcRuns.ReceiveHaltsExactly | kernel/proc.c:516-532 | the assertion on pending interrupts fails if and only if one is pending and the named source is not sending |
| IpcRuns.StepConserves | kernel/proc.c:339-373 | per event: in flight plus sent is delivered plus in flight, between any two slots |
| IpcRuns.Conservation | kernel/proc.c:339-514 | over every run the messages delivered from p to q and the one in flight are the messages sent, in order, unaltered |
| IpcRuns.RightSource | kernel/proc.c:147-149 | every message delivered names its real sender, and a receiver that named one hears only from it |
| IpcRuns.ArrivalOrder | kernel/proc.c:362-373 | over every run queues stand in the order in which their messages were accepted, also after removals |
| IpcRuns.AnyTakesOldest | kernel/proc.c:434-451 | a receive from ANY takes the oldest message waiting |
| IpcHistory.LogTells | kernel/proc.c:322-536 | over every run a slot waits for just what the log of calls, deliveries and interrupts says: it is receiving exactly if it has asked and nothing has been handed to it, nor an interrupt taken, since |
| IpcHistory.LogDelivers | kernel/proc.c:339-514 | the deliveries in that log are the messages delivered, in order |
| IpcHistory.InterruptsConserved | kernel/proc.c:546-569 | over every run the interrupts raised for a slot are those taken, the one pending, and those raised while one was pending |
| IpcHistory.NoInterruptLost | kernel/proc.c:546-569 | an interrupt raised while none is pending is taken at once or pending |
| IpcHistory.TakenIsRead | kernel/proc.c:413-422 | an interrupt taken, by a receive or by waking up, is read from INTERRUPT with kind HARD_INT in the taker's own buffer, and is no longer pending |
| IpcHistory.InterruptMeets | kernel/proc.c:550-562 | an interrupt is taken at once by just the slots waiting for interrupts or for anyone |
| IpcHistory.SendMeets | kernel/proc.c:333-380 | a send delivers exactly if the receiver waits for the sender or for anyone, and else blocks the sender |
| IpcHistory.ReceiveMeets | kernel/proc.c:411-536 | a receive without an interrupt to take delivers exactly if somebody it asked for is sending to it, and else blocks |
| IpcHistory.StepReleases | kernel/proc.c:342-345 | both ends of a delivered message can run afterwards |
| IpcHistory.PhaseFrame | kernel/proc.c:322-569 | slots an event does not name keep their wait and their pending interrupt |
| IpcHistory.MemoryFrame | kernel/proc.c:339-514 | no event writes a buffer but the ones named; a forked slot has its parent's memory |
| IpcHistory.SentAsWritten | kernel/proc.c:147-149 | a message is sent as written but for its source, and the sender's buffer keeps the rest |
| IpcHistory.ProcessorMoves | kernel/proc.c:110-125 | the running slot changes only at a clock tick or when it blocks, and then to the nearest ready slot |
| IpcExamples.ReceiveHalts | kernel/proc.c:516-532 | an interrupt for a task, which then waits for another, fails the assertion |
| IpcExamples.SendPanics | kernel/proc.c:329-331 | two processes sending to each other reach the panic |
| IpcExamples.ForkCorrupts | mm/forkexit.c:58-61 | INIT asks MM to fork and waits, another process is queued on INIT, MM forks: the invariant is lost |
| Scheduler.RoundRobinFair | kernel/proc.c:110-125 | a slot that stays ready is dispatched after at most as many calls as there are slots, whatever the others do |
| Scheduler.BestIsLastMaximum | kernel/proc.c:62-70 | the slot preferred is occupied, of highest priority and the last such |
| Scheduler.PriorityFair | kernel/proc.c:60-88 | each of the first 12 slots that stays ready is picked in any 24 consecutive ticks |
| Scheduler.PriorityPickReady | kernel/proc.c:57-89 | the slot picked can run |
| ProcTable.Kernel.FirstShared | kernel/proc.c:78-88 | the search among the first 12 slots ends at a ready one |
| Scheduler.ScanSharedFindsFirst | kernel/proc.c:78-88 | the search among the first 12 slots stops at the first ready one, in cyclic order |
| Scheduler.PriorityPickIsFirst | kernel/proc.c:57-89 | a tick picks the preferred slot in the second half of its turn, if that is ready, and else the first ready of the 12 from the tick's own slot on |
| Scheduler.OnlyTheBestUserIsPicked | kernel/proc.c:62-76 | some tick picks a later slot if and only if it is the preferred one and ready |
| PolicyRuns.PolicyRunsAreRuns | kernel/proc.c:35-89 | every run under the priority policy is a run of message passing, so what holds over these holds there |
| PolicyRuns.BecomesCurrent | kernel/proc.c:57-89 | in a run a later slot becomes current if and only if a tick picks it as the ready preferred one or a process blocks and it is next in turn |
| PolicyRuns.OthersRunToo | kernel/proc.c:246-250 | a run from boot in which a slot that is not preferred gets the processor |
| SectorMap.SectorDevice.ClearRun | fs/link.c:109-149 | the three phases clear exactly the bits of the run, over any sectors, and their assertions hold when these are set |
| SectorMap.SectorDevice.AllocRun | fs/open.c:455-501 | fills the run from the first zero byte on and returns its sector; fails only with no zero byte or no room behind it |
| SectorSlots.FreeUndoesAlloc | fs/link.c:109-149 | freeing restores the disk bit for bit if and only if all the bytes taken were free |
| SectorSlots.FirstZeroIsLowestFree | fs/open.c:474-480 | on a map of whole slots the first zero byte starts the lowest free slot |
| SectorSlots.RunKeepsSlots | fs/open.c:468-496 | over any run, with i-nodes, directories and files written in between, the map shows exactly the live slots and each file takes the lowest that is free |
| SectorSlots.AllocatesLowest | fs/open.c:474-480 | so at each step of the run |
| SectorSlots.FilesStayApart | fs/read_write.c:106-115 | writing a file in one slot is a splice of that file and changes no file in another |
| SectorSlots.TakeSlot | fs/open.c:455-501 | the allocating step of such a run, as the code takes it; its sector is the one do_unlink turns back into the slot's first bit |
| SectorSlots.GiveSlot | fs/link.c:109-149 | the freeing step of such a run, as the code takes it |
| SectorSlots.Mkfs | fs/main.c:277-319 | the map mkfs writes: bit 0, the root directory and cmd.tar, as far as the end of cmd.tar |
| SectorSlots.MkfsMapGrows | fs/main.c:277-319 | on the map of mkfs files take slot after slot while they end before cmd.tar |
| SectorSlots.TarOverwritten | fs/main.c:300-319 | the next file gets sectors of cmd.tar if and only if a whole free byte lies before them |
| SectorSlots.TarFreed | fs/link.c:109-149 | allocating and freeing such a file does not restore the map |
| SectorSlots.LoseCmdTar | fs/main.c:296-319 | after mkfs on a disk of 40257 sectors the fifteenth file is given sectors 30996 to 33043 |
| FileData.LimitKeptExactly | fs/read_write.c:75-93 | the limit is kept if and only if position plus length is within it |
| FileData.WithinLimit | fs/read_write.c:75-121 | a request within its limit moves all its bytes |
| FileData.MovedExactly | fs/read_write.c:75-121 | any request moves the smaller of its length and the whole sectors up to the one with its end or its limit, in chunks of 2048 beyond that many |
| FileData.ReadPastEnd | fs/read_write.c:75-128 | one byte read from an empty file is moved |
| FileData.OverrunsNextFile | fs/read_write.c:78-115 | one byte written behind a file's sectors is moved, into the first byte of the next file |
| FileData.FilesAreFlat | fs/read_write.c:106-115 | a write within the allotment splices that file, leaves files with other sectors alone and reads back |
| FileData.OpenFile.DoRdwt | fs/read_write.c:71-131 | a write is a splice of the disk at the position and a read yields the slice there, changing nothing else; the position advances and the size grows with it |
| FileTable.AttachKeepsCounts | fs/main.c:574-579 | an inherited open slot, counted at its descriptor and i-node, keeps descriptors counted by open slots and i-nodes at least by descriptors |
| FileTable.DetachKeepsCounts | fs/main.c:598-606 | so does giving one up; both counts were positive |
| FileTable.OpenKeepsCounts | fs/open.c:226-235 | so does a new descriptor, if and only if its i-node is counted more often than descriptors refer to it |
| FileTable.SyncKeepsCoherent | fs/main.c:545-560 | writing an i-node through keeps every live slot equal to the disk, and the only one of its number |
| FileProofs.GetKeeps | fs/main.c:478-521 | so does counting or loading an i-node, which becomes one reference more than descriptors account for |
| FileProofs.OpenIffReferred | fs/main.c:485-498 | an i-node is open if and only if descriptors refer to the slot that get_inode finds for it |
| FileProofs.CreateExact | fs/open.c:515-532 | creating a file keeps all tables in order if and only if the number it gets is not open |
| FileProofs.MkdirExact | fs/open.c:146-152 | so does making a directory |
| FileProofs.UnlinkExact | fs/link.c:63-160 | removing keeps them in order too, and makes an open number free for reuse if and only if what is removed is open |
| FileProofs.FileRefusedIffCached | fs/link.c:74-78 | a file that is no directory is refused removal if and only if it is live in the cache |
| FileProofs.DirectoryRefusedIffFull | fs/link.c:65-72 | a directory is refused removal if and only if it is not empty, whoever has it open |
| FileProofs.OpenFileStays | fs/link.c:74-78 | an open file that is no directory is refused removal |
| FileProofs.DetachRowKeeps | fs/main.c:593-608 | exiting gives up exactly the open slots of the process and keeps all in order |
| FileProofs.ForkKeeps | fs/main.c:570-582 | counting a child's open slots puts all in order again |
| FileTables.Tables.constructor | fs/main.c:147-182 | the tables and the i-nodes on disk as mkfs and init_fs leave them |
| FileTables.Tables.GetInode | fs/main.c:478-521 | the live slot of the number, or the first empty one, loaded; fails only on a full cache |
| FileTables.Tables.NewInode | fs/open.c:410-532 | the lowest free number, its slot overwritten with count 1 whatever it was, and written through |
| FileTables.Tables.DoOpen | fs/open.c:184-262 | the first free open slot and descriptor tied to the i-node, or -1 and no change for a rejected path, a missing file or one to be created that is there; halts exactly when one of the tables is full |
| FileTables.Tables.DoMkdir | fs/open.c:146-157 | a new empty directory, with the reference given back, or nothing for a rejected path |
| FileTables.Tables.DoClose | fs/open.c:350-359 | one open slot given up, its descriptor freed with the last one |
| FileTables.Tables.FsExit | fs/main.c:593-608 | the same for each open slot of a process |
| FileTables.Tables.ForkCopy | mm/forkexit.c:59 | the child has the parent's open slots, which are not counted yet |
| FileTables.Tables.FsFork | fs/main.c:570-582 | each of them counted once more |
| FileTables.Tables.DoUnlink | fs/link.c:63-92 | refuses, or frees the number and clears the i-node, exactly as the guards say; a refusal keeps the reference |
| FileTables.Tables.DoLseek | fs/open.c:370-398 | the new position, from the start, the old one or the size; -1 and no change when it is outside the file or whence is another |
| FileHandles.DescriptorsKept | fs/main.c:570-608 | closing, exiting, copying a slot and counting it leave mode, position and i-node of every descriptor still in use |
| FileHandles.Meaning | fs/open.c:184-398 | over every run an open slot's descriptor has the mode and file it was opened with and the last position set, slots share a descriptor exactly if they share a handle, and the i-nodes on disk are those last made, resized or removed |
| FileHandles.StepTells | fs/main.c:51-86 | so it is after each step, if it was before |
| FileHandles.OpenedStays | fs/open.c:226-235 | an open slot keeps its handle, with mode and file, until it is closed or its process exits |
| FileRuns.InitialIsSound | fs/main.c:147-182 | all is in order after mkfs |
| FileRuns.StepSoundExactly | fs/main.c:51-86 | in an ordered state each step leaves an ordered one if and only if it does not make a file of an open number |
| FileRuns.StepKeeps | fs/main.c:51-86 | such a step keeps open numbers taken if and only if it removes no open directory, and leaked references in any case |
| FileRuns.HaltsExactly | fs/open.c:184-262 | a step halts the system exactly where a process has no slot, or the tables no descriptor, no number or no room in the cache left, or where what is to be removed has no number taken |
| FileRuns.OpenFilesStay | fs/link.c:63-78 | over every run that makes nothing of an open number: counts are right, cache and disk agree, and no open file that is not a directory can be removed |
| FileRuns.RefusedForEver | fs/link.c:65-78 | over every such run, a regular file refused removal once is refused ever after |
| FileRuns.PrudentRunsNeverClash | fs/open.c:410-440 | a run in which no directory is removed while open makes nothing of an open number |
| FileRuns.OpenFileRemoved | fs/link.c:74-160 | a run from mkfs after which two descriptors share a slot counted once, and after closing one the other's open regular file is removed |
| FileRuns.LeakExample | fs/link.c:74-78 | a run after which cmd.tar is not open and can never be removed |
| Buddy.BlockSizeFits | mm/main.c:338-339 | the block size is a power of two, holds the request exactly up to BUDDY_SIZE, and is below twice it |
| Buddy.OverlapIffRelated | mm/main.c:304-328 | two nodes overlap if and only if one is above the other |
| Buddy.RoomLeft | mm/main.c:341-349 | n blocks of at most 2^k leave room for one more while (n + 1) * 2^k is at most BUDDY_SIZE |
| Buddy.TooBig | mm/main.c:338-339 | a request for one page more than the arena settles on the arena |
| Buddy.Allocator.SetChild | mm/main.c:304-312 | ends inside the array and marks exactly the node and its descendants |
| Buddy.Allocator.SetParent | mm/main.c:313-322 | ends and marks exactly the ancestors |
| Buddy.Allocator.Alloc | mm/main.c:333-350 | the lowest free aligned block of its size, disjoint from all others; none only when none is free |
| Buddy.Allocator.Serve | mm/main.c:333-350 | on an empty tree any n requests of at most 2^k pages succeed, in disjoint blocks, if n * 2^k fits the arena |
| Buddy.Allocator.DoBuddy | mm/main.c:361-377 | none of its ten requests fails, and the ten ranges are in the arena and pairwise disjoint |
| Console.ScrollApproaches | kernel/console.c:129-134 | each round of the loop of out_char is one line nearer to the cursor, going around the end |
| Console.LoopEnds | kernel/console.c:129-134 | the loop ends if and only if the buffer has wrapped or the cursor is not above the window |
| Console.DownUndoesUp | kernel/console.c:257-289 | scrolling down takes back scrolling up, with the exact exceptions |
| Console.OutReturns | kernel/console.c:84-137 | out_char returns in all but one case, with the cursor in a well-placed window |
| Console.OutShowsPut | kernel/console.c:84-137 | one character shows as on an ideal 25-line terminal if and only if it is not a backspace above the window |
| Console.WrappedFeeds | kernel/console.c:115-125 | the copy of the last lines to the start of the buffer looks like a line feed |
| Console.TextShows | kernel/console.c:84-137 | any text shows as on the ideal terminal |
| Console.PlainTextSettles | kernel/console.c:84-137 | that is so for every text without backspaces, from every console that is well placed |
| Console.Ran | kernel/console.c:84-294 | after any mix of output and scrolling that gets through the console is well placed |
| Console.RunsUnlessStuck | kernel/console.c:84-294 | every mix gets through once the buffer has wrapped, or without backspaces |
| Console.SpillsExactly | kernel/console.c:129-134 | which cells behind the console a character clears, and when none |
| Console.ShownDoesNotSpill | kernel/console.c:129-134 | none while the cursor is in the window |
| Console.OutPlaces | kernel/console.c:84-137 | where cursor and window are after a character, from wherever the user has scrolled to |
| Console.HistoryKept | kernel/console.c:84-137 | lines out of the window stay as they were until the buffer wraps |
| Console.HistoryWraps | kernel/console.c:115-125 | as it wraps the last 24 lines go to the start and all but the first 25 stay |
| Console.ScrollStops | kernel/console.c:257-289 | where scrolling down and up has no effect, before and after the buffer has wrapped |
| Console.ScrollMoves | kernel/console.c:257-289 | otherwise the window moves by one line, around the ends |
| Console.Geometry | kernel/console.c:49-54 | consoles are disjoint, longer than two screens, and nearer to each other than the spill |
| Console.Terminal.constructor | kernel/console.c:49-58 | a console starts well placed, in its own share of the video memory |
| Console.Terminal.WCopy | kernel/console.c:341-346 | copies downwards in memory also when the ranges overlap |
| Console.Terminal.ScrollScreen | kernel/console.c:248-295 | moves the window as the model does and changes nothing else |
| Console.Terminal.OutChar | kernel/console.c:84-137 | ends, and leaves exactly the cells, window and cursor of the model; other consoles beyond the spill keep theirs |
| ConsoleExamples.BackspaceSticks | kernel/console.c:129-134 | 25 newlines and 1920 backspaces bring a new console to where the next one does not return |
| ConsoleExamples.TypingSpills | kernel/console.c:129-134 | 67 newlines, a line scrolled back and a letter clear a cell behind a new console |
| Exec.Execv | lib/exec.c:59-82 | the assertions hold if and only if the block is below 1024 bytes, and then it is an argv: null-terminated, NUL-terminated copies, no overlap |
| Exec.ArgvExists | lib/exec.c:59-82 | there is an argument block for every string at every address |
| Exec.MovedIsArgvExactly | mm/exec.c:97-104 | moving the pointers up to the first null by the difference of two addresses makes an argv of an argv and of nothing else |
| Exec.SegmentWrecks | mm/exec.c:75-93 | a segment that changes the first character of the first argument leaves no argv of the same strings |
| Exec.Relocate | mm/exec.c:99-104 | ends at the first null, having counted and moved every pointer before it |
| Exec.LoadedIsLast | mm/exec.c:75-86 | after loading, every byte is that of the last loaded segment that covers it, or the old one where none does |
| Exec.SegmentStands | mm/exec.c:75-112 | after do_exec a loaded segment apart from the others and the arguments stands at its address as the program has it |
| Exec.DoExec | mm/exec.c:73-112 | outside the block at its top the new image has every byte from the last segment over it or as before; the block is the one after loading, relocated; argc and that block are an argv of the same strings if and only if the block was one after loading |
| Exec.ExecvThenDoExec | lib/exec.c:59-94 | execv followed by do_exec: if the arguments fit and the program spares them, argc and argv of the new program are those given |
| Tty.NewestDropped | kernel/tty.c:217-226 | of the keys for a full queue exactly the newest are lost |
| Tty.EraseUndoesTyping | kernel/tty.c:264-276 | a printable key and a backspace after it cancel out wherever they stand |
| Tty.ReadReturns | kernel/tty.c:278-286 | the first key that ends a read answers it with the line edited up to there, whatever follows |
| Tty.EchoShowsText | kernel/tty.c:264-279 | what is echoed spells what the reader gets |
| Tty.AnsweredInOrder | kernel/tty.c:278-316 | over every run the messages sent are, read by read, a suspension and, if a key has ended the read, one resumption with the length of the line edited up to that key |
| Tty.KeysReachReads | kernel/tty.c:217-317 | over every run each read asked for is given just the keys polled while it is the last one, of those pressed that found fewer than 256 waiting |
| Tty.KeysConserved | kernel/tty.c:217-317 | the keys polled before the first read, those of the reads in order, and the queue are together these keys, in order; the reads are those asked for |
| Tty.QueueHoldsUnpolled | kernel/tty.c:217-226 | the queue holds these keys from the last poll on, as many as were pressed, up to 256 |
| Tty.PlainTextReturned | kernel/tty.c:264-286 | a text of codes 32 to 126 and a newline is returned and shown as it is |
| Tty.FullTextReturned | kernel/tty.c:264-286 | a text as long as the read needs no newline |
| Tty.OtherKeysIgnored | kernel/tty.c:264-276 | any other code but a backspace is ignored wherever it stands |
| Tty.BackspaceOnEmpty | kernel/tty.c:269-276 | so is a backspace on an empty line |
| Tty.LineIsRead | kernel/tty.c:217-317 | a read, a line typed and a poll: the reader is suspended, then resumed once with that line |
| Tty.Device.PutKey | kernel/tty.c:217-226 | the ring is a queue of 256 that drops the newest: exactly the key step of a run |
| Tty.Device.DevWrite | kernel/tty.c:254-289 | exactly the polling step of a run; memory holds the text, nothing else of it changes, and the echo is that of the line editor |
| Tty.Device.DoRead | kernel/tty.c:304-317 | exactly the reading step of a run: a fresh read and one suspension |

## Left out

- Boot, assembly, descriptor tables, interrupt controller, timer, CRTC and keyboard ports, and the disk driver: hardware.
- Interrupts inside a send or receive: steps are atomic.
- Killing, exiting and waiting in the message-passing model: the code frees slots that may still be queued and leaves WAITING, HANGING and p_parent stale. Fork is modelled there as the copy of the slot and of the memory, which comes first in do_fork.
- Directory and path code (search_file, strip_path, new_dir_entry, do_ls, do_rename, the directory part of do_unlink): what they find is a parameter.
- Super blocks and more than one device. The i-node map is an array of bits here; its byte loops are not modelled. When it is full alloc_imap_bit returns 0 and new_inode writes through a null pointer, which ends a run.
- The character-device branch of do_rdwt.
- printl, disklog, the shell, untar and the commands: output and thin wrappers. The chain printed on a deadlock is walked, not printed.
- i-node sectors and file sectors are separate stores in the model, and both are reached through one buffer only within each of them; the i-node sync at the end of do_rdwt is a field next to the file's data.
- Wrap-around of the tick counter and of 32-bit sizes; pointers in argument blocks do wrap.
- Shell prompts of init_screen: the constructor of a console only places it.
- Exec.DoExec: asks for a null word in the block as it is after loading; without one the code walks on into what the stack of MM happens to hold.
- FileTables.Tables.DoOpen: a failure leaves the tables as they were; looking up a path with directories takes references that strip_path never gives back, which are steps of their own in the runs.
- FileTables.Tables.DoUnlink: the sector map it clears is SectorMap's, and that its bits are set is assumed.
- FileRuns.OpenFilesStay: its runs end where an i-node is made of an open number; what can happen then is OpenFileRemoved.
