# A verified model of the kernel framework's core

This project models the stateful core of a small x86_64 kernel framework in Dafny and proves what that
core promises: the NVMe queues and driver, the physical frame allocator, page-table copying and program
loading, the process heap, the scheduler with its context switch, and PCI enumeration and BAR sizing.
`dafny verify dfyconfig.toml` checks everything.

Code that updates fields in place is a class here, and its methods are proved equal to step functions on
values; what holds over whole runs is then proved about the step functions. Where a property does not hold
of the code, the model keeps the code's behaviour, gives a concrete input, and states the exact condition
under which the property holds.

| files | part of the system |
|---|---|
| `Collections`, `RingArith`, `NvmeTypes`, `CompletionRing`, `SubmissionRing` | shared helpers and the two rings: phase tags, full and empty tests, `complete_n`, command ids |
| `NvmeSystem`, `NvmeIds`, `NvmeProgress` | host and controller as one state machine over memory and disk; command ids over runs; when waits can end and do end |
| `NvmeBatch`, `NvmeTransfers`, `NvmeData`, `NvmeReads`, `NvmeDma` | what a batch, a chunk and a whole transfer move |
| `NvmeQueues`, `NvmeQueuePair`, `NvmeDriver` | the driver's objects, working in place against an arbitrary controller schedule |
| `PageTables`, `ProcessImage`, `HeapBlocks`, `ProcessHeap` | table copying, reading and writing through translation, ELF segments, the user heap |
| `Bitmaps`, `FrameAllocator`, `FrameRuns`, `FrameInit` | the bitmap allocator, its runs, and start-up from a memory map |
| `ContextSwitch`, `Scheduling`, `SchedulerRuns`, `SwitchRuns` | push and pop sequences, the ready queue, runs over several processors |
| `PciPaths`, `PciLoops`, `PciWalk`, `PciChains`, `PciEnumeration`, `PciListing`, `PciBars` | the bus walk and the probing of base address registers |

How the outside world enters:

- The NVMe controller is any sequence of fetch, execute and finish steps; a batch may be executed in any
  order. Spin loops take a schedule of controller steps; a result of `None` or `false` means that the
  schedule ended before the wait did, which does not happen under a controller that keeps up. The
  controller keeps the rules of the NVM Express Base Specification 1.4 (sections 4.1.1, 4.1.2, 4.3 and
  4.6): it does not overrun the head doorbell, posts completions with the phase tag of its lap, and takes
  the two low bits of a first PRP entry for zero.
- Each lock-protected call and each timer interrupt is one atomic step. Panics are `None`, `false` or an
  error value.
- Frames given out by the allocator are parameters or arbitrary members of a free set; the inner heap
  allocator is only known to return blocks inside its arena that overlap no live block.
- PCI registers are a value and a set of writable bits, as in section 6.2.5.1 of the PCI Local Bus
  Specification 3.0.

Where the code disagrees with its own comments or with what a caller may expect, the code was followed:

- `Bitmap::len` counts bytes, yet bounds frame numbers: searches stop at an eighth of the bitmap.
- `allocate_frame` does not look at the bit it clears, and the cursor can be on a clear bit
  (`FrameInit.FrameGrantedTwice`, `FrameInit.ReservedFrameGranted`, `FrameRuns.SafeIffCursor`).
- Releasing a frame below the cursor does not make it available again (`FrameRuns.ReleasedBelowLost`).
- The completion ring's memory is not cleared (`CompletionRing.ClearPhasesNecessary`).
- `complete_n` flips the phase once whatever the count (`CompletionRing.JumpCorrectIff`).
- A batch length that does not divide a chunk leaves blocks unwritten and returns stale staging bytes
  (`NvmeData.BatchedWriteExact`, `NvmeReads.BatchedReadExact`). The parts of such a chunk can start at
  staging offsets that are not multiples of four; the controller then moves the bytes from up to three
  bytes earlier.
- A wait for as many completions as the completion ring has slots never ends
  (`NvmeProgress.WaitCanEndIff`).
- New threads go to the front of the queue (`SchedulerRuns.Starvation`).
- A multi-function host makes buses 1 to 7 roots (`PciListing.MultiFunctionHostRepeats`).
- The walk has no guard against bridges that lead back to a bus (`PciLoops.BoundedIffNoLoop`).
- BARs of 4 GiB and more, I/O BARs under 16 bytes and I/O BARs with sixteen address bits are missized
  (`PciBars.WideBarExactIff`, `PciBars.IoBarExactIff`, `PciBars.NarrowIoBarWrong`).

## Model

| member | source | states |
|---|---|---|
| `CompletionRing.PhaseTestExact` | src/drivers/nvme/queues.rs:104-117 | in every reachable ring state the phase test at the head succeeds exactly when an unconsumed completion has been posted, and then reads that completion |
| `CompletionRing.CompleteInv` | src/drivers/nvme/queues.rs:104-117 | one poll keeps the ring invariant, returns exactly the next posted entry or nothing, and moves the position by exactly that much |
| `CompletionRing.PostInv` | src/drivers/nvme/queues.rs:82-117 | a controller that respects the head doorbell never destroys an unconsumed completion |
| `CompletionRing.CanPostIff` | src/drivers/nvme/queues.rs:82-117 | the controller's full test is exactly "one slot short of a whole ring beyond the rung head" |
| `CompletionRing.RunFrom` | src/drivers/nvme/queues.rs:104-141 | from any reachable state, in every interleaving of posts, polls and doorbells, the polls return a contiguous stretch of the posting order |
| `CompletionRing.ConsumedInPostingOrder` | src/drivers/nvme/queues.rs:104-141 | from clear phase tags, each completion is consumed once and in posting order across any number of wraps, and the next poll succeeds exactly when one is left |
| `CompletionRing.ClearPhasesNecessary` | src/drivers/nvme/queues.rs:92-101 | the polls return only posted entries in every interleaving if and only if the ring memory starts with clear phase tags, which the driver does not ensure |
| `CompletionRing.JumpInv` | src/drivers/nvme/queues.rs:119-131 | the head and phase jump of `complete_n` keeps the invariant for any count up to the ring length |
| `CompletionRing.CompleteNRefinesSingles` | src/drivers/nvme/queues.rs:119-141 | for 1 to len commands, `complete_n` returns exactly when the n-th completion has been posted, with the head, phase and entry of n single completions |
| `CompletionRing.AdvanceClosed` | src/drivers/nvme/queues.rs:108-112 | closed form of n single advances: position modulo length, phase by the parity of the laps |
| `CompletionRing.JumpCorrectIff` | src/drivers/nvme/queues.rs:121-127 | for any count the jump agrees with single advances if and only if it crosses no lap boundary or an odd number of them |
| `SubmissionRing.IsFullIff` | src/drivers/nvme/queues.rs:56-58 | `is_full` holds exactly when, as far as the host knows, len - 1 commands are unfetched |
| `SubmissionRing.IsEmptyIff` | src/drivers/nvme/queues.rs:52-54 | head equals tail exactly when every submitted command is known to be fetched |
| `SubmissionRing.SubmitInv` | src/drivers/nvme/queues.rs:60-75 | a submission that is not refused overwrites no command the controller has yet to fetch |
| `SubmissionRing.FetchInv` | src/drivers/nvme/queues.rs:31-80 | fetching takes the next rung command in submission order and keeps the invariant |
| `SubmissionRing.ShiftOrIsSum` | src/drivers/nvme/nvme.rs:122-140 | for every sixteen-bit queue number and tail below 2048, shifting the number by eleven and or-ing the tail is the identifier the model computes with, the number modulo 32 times 2048 plus the tail |
| `SubmissionRing.CommandIdCollision` | src/drivers/nvme/nvme.rs:122-140 | ids collide if and only if the tails are equal and the queue numbers agree modulo 32 |
| `SubmissionRing.InFlightIdsDiffer` | src/drivers/nvme/nvme.rs:122-140 | over all pairs numbered below 32, two commands between head and tail have equal ids if and only if they are the same command of the same pair |
| `NvmeIds.RunOwnIds` | src/drivers/nvme/nvme.rs:108-155 | on every run of a pair that builds ids as `submit_io` does, every command carries its queue's number and its slot |
| `NvmeIds.PairIdsDiffer` | src/drivers/nvme/nvme.rs:106-199 | whatever any pairs with different numbers below 32 and their controllers have done since creation, all ids in flight are different |
| `NvmeSystem.CommandRoundTrip` | src/drivers/nvme/cmd.rs:159-193 | start block and length that the controller decodes from a built command are those it was built from, and every other field is as given |
| `NvmeSystem.PrpInverse` | src/drivers/nvme/cmd.rs:159-193 | the map from transfer bytes to memory through the two PRP entries, the first taken with its two low bits clear, is injective and stays in memory |
| `NvmeSystem.ActsInv` | src/drivers/nvme/queues.rs:31-146 | any sequence of controller steps (fetch, execute in any order, finish) keeps the host/controller invariant |
| `NvmeSystem.SubmitInv` | src/drivers/nvme/queues.rs:60-75 | a checked submission keeps the host/controller invariant |
| `NvmeSystem.BeginWaitInv` | src/drivers/nvme/queues.rs:121-127 | starting to wait for n completions puts the host exactly n - 1 completions ahead |
| `NvmeSystem.PollInv` | src/drivers/nvme/nvme.rs:558-577 | a poll returns exactly the completion at the host's position once posted, and the head it reports is learned |
| `NvmeSystem.StepInv` | src/drivers/nvme/nvme.rs:106-199 | every host or controller event keeps the invariant |
| `NvmeSystem.SubmissionsReachController` | src/drivers/nvme/nvme.rs:106-199 | on every run the controller fetches exactly the first submissions in order, no unfetched slot was overwritten, the known head is never ahead, full is reported exactly when len - 1 are unknown, and each completion names a command that was executed |
| `NvmeSystem.FreshQuiet` | src/drivers/nvme/queues.rs:41-50 | a new queue pair over clear completion memory has nothing in flight |
| `NvmeSystem.QuietMeansDone` | src/drivers/nvme/nvme.rs:558-577 | seeing as many completions as commands were submitted means all were executed and the submission ring is empty, in whatever order the controller worked |
| `NvmeProgress.PostBound` | src/drivers/nvme/queues.rs:92-141 | no controller schedule completes more than was announced or fills the completion ring |
| `NvmeProgress.WaitCanEndIff` | src/drivers/nvme/queues.rs:119-141 | with the head doorbell up to date a wait for n completions can end, under some controller, if and only if n announced commands are outstanding and n is less than the ring length |
| `NvmeProgress.EagerWorks` | src/drivers/nvme/queues.rs:133-141 | a controller that fetches, executes and finishes everything it can serves every state |
| `NvmeProgress.PromptExists` | src/drivers/nvme/queues.rs:133-141 | for any number of commands and scheduling points there is a schedule that keeps up throughout |
| `NvmeProgress.DiligentEnds` | src/drivers/nvme/queues.rs:133-141 | under a controller that keeps up, a wait for fewer completions than the ring length ends at the next scheduling point |
| `NvmeProgress.SpinExact` | src/drivers/nvme/queues.rs:133-141 | a spin loop ends exactly when the controller's steps of the whole schedule bring the awaited completion |
| `NvmeBatch.ActsWriting` | src/drivers/nvme/nvme.rs:579-617 | however the controller orders a write batch, the disk holds exactly the executed commands' data and is otherwise unchanged |
| `NvmeBatch.ActsReading` | src/drivers/nvme/nvme.rs:619-657 | however the controller orders a read batch, memory holds exactly the executed commands' blocks and is otherwise unchanged |
| `NvmeTransfers.SplitFits` | src/drivers/nvme/nvme.rs:594-596 | the division of a chunk into commands stays within the chunk |
| `NvmeTransfers.Separate` | src/drivers/nvme/nvme.rs:598-614 | two commands of a batch touch different disk bytes and different memory bytes |
| `NvmeTransfers.OnePage` | src/drivers/nvme/nvme.rs:526-534 | a command inside the staging page addresses one contiguous range through its first PRP entry, from the entry rounded down to four bytes on |
| `NvmeTransfers.PartsApart` | src/drivers/nvme/nvme.rs:594-614 | the parts of a batch stay apart in the staging page even when rounding moves their start |
| `NvmeTransfers.WriteBatchDone` | src/drivers/nvme/nvme.rs:598-614 | a finished write batch leaves the disk as if the parts had been copied one after the other from where the controller reads them, whatever the execution order |
| `NvmeTransfers.ReadBatchDone` | src/drivers/nvme/nvme.rs:637-652 | a finished read batch leaves memory as if the parts had been copied one after the other to where the controller stores them, whatever the execution order |
| `NvmeTransfers.LoadedBeyond` | src/drivers/nvme/nvme.rs:637-652 | a finished read batch leaves memory outside the staging page as it was |
| `NvmeData.WriteAllWhole` | src/drivers/nvme/nvme.rs:590-614 | when every chunk divides evenly, all chunks together place exactly the data at its block address |
| `NvmeData.WriteAllBeyond` | src/drivers/nvme/nvme.rs:594-614 | nothing beyond the blocks the code counts for the data is written |
| `NvmeData.BatchedWriteExact` | src/drivers/nvme/nvme.rs:590-614 | `batched_write` stores the data on every disk if and only if each chunk is a multiple of its batch's blocks |
| `NvmeData.WholePages` | src/drivers/nvme/nvme.rs:594-596 | for whole-page data that condition holds if and only if min(batch_len, 8) is 1, 2, 4 or 8 |
| `NvmeDma.RoundedSize` | src/drivers/nvme/memory.rs:150-164 | `Dma::allocate` rounds up to whole pages, by less than one page |
| `NvmeDma.DmaChunks.Next` | src/drivers/nvme/memory.rs:48-70 | the iterator yields the next element of the chunk list and advances past it |
| `NvmeDma.ChunksPartition` | src/drivers/nvme/memory.rs:48-70 | the chunks lie end to end over exactly the buffer, all but the last full |
| `NvmeDma.ChunkAt` | src/drivers/nvme/memory.rs:48-70 | chunk k is at offset 8192 k with the remaining length, at most 8192 |
| `NvmeDma.PrpContiguousIff` | src/drivers/nvme/nvme.rs:672-681 | the two PRP entries address the range from addr on if and only if addr is a multiple of four and either page-aligned or followed by the whole transfer within its page |
| `NvmeDma.AlignedTransfer` | src/drivers/nvme/nvme.rs:659-708 | on a page-aligned chunk the PRP list is never needed and the transfer is one contiguous range |
| `NvmeDma.SingleDone` | src/drivers/nvme/nvme.rs:659-708 | a single executed command has copied its range and nothing else |
| `NvmeQueues.NvmeSubQueue.SubmitChecked` | src/drivers/nvme/queues.rs:60-66 | refuses exactly when the slot after the tail is the head, otherwise writes that one slot and advances |
| `NvmeQueues.NvmeCompQueue.Complete` | src/drivers/nvme/queues.rs:104-117 | in place: the entry, new head and previous head when the phase matches, otherwise nothing changes |
| `NvmeQueues.Channel.SubmitChecked` | src/drivers/nvme/queues.rs:60-75 | the in-place submission refines the protocol's submit step, refusing exactly when it is full |
| `NvmeQueues.Channel.CompleteSpin` | src/drivers/nvme/queues.rs:133-141 | the spin loop refines polling between the controller's steps: it stops at the first successful poll and gives up only when the schedule is used up |
| `NvmeQueues.Channel.CompleteN` | src/drivers/nvme/queues.rs:119-131 | the in-place jump and spin refine the protocol's wait for n completions, with the same account of the schedule |
| `NvmeQueuePair.RoomExact` | src/drivers/nvme/queues.rs:56-58 | the room the host knows of is zero exactly when the ring reports full |
| `NvmeQueuePair.NvmeQueuePair.SubmitIo` | src/drivers/nvme/nvme.rs:108-155 | returns exactly min(chunks, room); the tail moved that many steps, the submitted commands are one for each chunk, in order, and all ids stay the pair's own |
| `NvmeQueuePair.SubmittedRanges` | src/drivers/nvme/nvme.rs:108-145 | command i has opcode 1 for a write and 2 for a read, namespace 1, start block lba + 16 i, the length of chunk i rounded up to 512 bytes, and the pair's number and the slot as identifier; its memory is the chunk's if and only if the chunk's address is a multiple of four and page-aligned or in one page with the transfer |
| `NvmeQueuePair.SubmittedPages` | src/drivers/nvme/nvme.rs:108-145 | for page-aligned buffers of whole pages the accepted commands cut the buffer and the blocks from lba on into the same consecutive pieces |
| `NvmeQueuePair.NvmeQueuePair.CompleteIo` | src/drivers/nvme/nvme.rs:158-177 | returns exactly when the controller's steps post n more completions, consumes exactly those and reports the last one's head |
| `NvmeQueuePair.NvmeQueuePair.QuickPoll` | src/drivers/nvme/nvme.rs:179-198 | succeeds exactly when an unconsumed completion exists, consumes it, and never moves the known head back |
| `NvmeDriver.FreshIdle` | src/drivers/nvme/queues.rs:41-50 | a new device over clear completion memory and rings of at least nine entries is ready for transfers |
| `NvmeDriver.SubmittingStep` | src/drivers/nvme/nvme.rs:513-556 | submitting the next command of a batch is never refused |
| `NvmeDriver.WaitDone` | src/drivers/nvme/nvme.rs:558-577 | after the wait the whole batch is executed, nothing is in flight and the submission ring is empty |
| `NvmeDriver.NvmeDevice.SubmitBatch` | src/drivers/nvme/nvme.rs:598-612 | the submission loop submits every command of the chunk, in order, while the controller already works on them |
| `NvmeDriver.NvmeDevice.CompleteIo` | src/drivers/nvme/nvme.rs:558-577 | returns exactly when the controller's steps complete all commands in flight, which have then been executed, with head equal to tail |
| `NvmeDriver.NvmeDevice.TransferChunk` | src/drivers/nvme/nvme.rs:594-613 | one chunk of a batched transfer moves exactly the chunk and leaves the device idle, with the statistics counted and every command for the given namespace and with its slot as identifier; it ends under every controller that keeps up |
| `NvmeDriver.NvmeDevice.BatchedWrite` | src/drivers/nvme/nvme.rs:579-617 | for any batch length and any controller behaviour the disk becomes the in-order chunk copy of the data; memory outside the staging page is untouched, and the page is refilled only while nothing is in flight; all commands are for the given namespace with their slots as identifiers, and counted; it ends under every controller that keeps up |
| `NvmeDriver.NvmeDevice.BatchedRead` | src/drivers/nvme/nvme.rs:619-657 | for any batch length and any controller behaviour the buffer becomes what the commands load over the old staging page, chunk by chunk; the disk and other memory are unchanged; all commands are for the given namespace with their slots as identifiers, and counted; it ends under every controller that keeps up |
| `NvmeReads.ReadAllWhole` | src/drivers/nvme/nvme.rs:630-653 | when every chunk divides evenly that is exactly the disk's content |
| `NvmeReads.BatchedReadExact` | src/drivers/nvme/nvme.rs:630-653 | `batched_read` returns the disk's content for every disk and staging page if and only if each chunk is a multiple of its batch's blocks |
| `NvmeReads.StagedRead` | src/drivers/nvme/nvme.rs:637-653 | a finished read batch changes the staging page as the reference says |
| `NvmeDriver.NvmeDevice.WriteThenRead` | src/drivers/nvme/nvme.rs:579-657 | what was written comes back, whatever two batch lengths are used, when they divide the chunks evenly |
| `NvmeDriver.NvmeDevice.NamespaceIo` | src/drivers/nvme/nvme.rs:659-708 | the unchecked submission is alone in flight, loses nothing, moves exactly its blocks and is counted |
| `NvmeDriver.NvmeDevice.Write` | src/drivers/nvme/nvme.rs:470-478 | issues exactly one command for each chunk, in order, at consecutive blocks; the disk gets exactly the DMA buffer's bytes and nothing else changes; it ends under every controller that keeps up |
| `NvmeDriver.NvmeDevice.Read` | src/drivers/nvme/nvme.rs:480-488 | issues exactly one command for each chunk, in order, at consecutive blocks; the DMA buffer gets exactly the disk's bytes and nothing else changes; it ends under every controller that keeps up |
| `NvmeDriver.IssuedRanges` | src/drivers/nvme/nvme.rs:470-488 | the issued commands cut the buffer's physical range and the block range into the same pieces, in order, without gap or overlap, each piece within two pages so that no PRP list is used |
| `NvmeDriver.IssuedAddressed` | src/drivers/nvme/nvme.rs:470-488 | all of them are for namespace 1 with their slots as identifiers |
| `NvmeDriver.AddressedIds` | src/drivers/nvme/nvme.rs:536-554 | transfers keep every identifier equal to its slot, so the identifiers of commands in flight are pairwise different |
| `PageTables.CopyTranslates` | src/memory/page_table.rs:82-110 | a copy translates every address as its source: same leaf, same flags, same absence |
| `PageTables.CopiedEntry` | src/memory/page_table.rs:88-108 | level-1 entries, zero entries and huge pages (bit 7) are copied as they are; every other entry, present or not, gets a table of its own and keeps its flags |
| `PageTables.NeededStep` | src/memory/page_table.rs:88-108 | the frames a copy needs are one for each such entry and those of its table |
| `PageTables.CopyTables` | src/memory/page_table.rs:82-110 | the tables reachable from the copy are among the frames the copy was given |
| `PageTables.WalkFrame` | src/memory/page_table.rs:82-110 | a translation depends only on the tables reachable from its root |
| `PageTables.PhysicalMemory.NewFromRecursion` | src/memory/page_table.rs:82-110 | the recursive copy succeeds exactly when there are enough frames, takes exactly the frames needed, writes every entry of every new table, and writes nowhere else |
| `PageTables.PhysicalMemory.CopyEntry` | src/memory/page_table.rs:88-108 | one loop iteration copies one entry or subtree, with the exact number of frames |
| `PageTables.PhysicalMemory.NewFromAddress` | src/memory/page_table.rs:33-44 | succeeds exactly when there are enough frames; the new table is a copy at a free frame, every virtual address walks to the same leaf in it as in the source, the source still translates as before, and no table is shared |
| `PageTables.CopyIsIndependent` | src/memory/page_table.rs:33-44 | later writes to the copy's tables never change a source translation, nor the other way round |
| `Bitmaps.BitsUpdate` | src/data/bitmap.rs:23-26 | updating one bit of one byte updates exactly that bit of the bit sequence |
| `Bitmaps.Bitmap.Get` | src/data/bitmap.rs:18-21 | the byte-level read is the bit of the bit sequence |
| `Bitmaps.Bitmap.Set` | src/data/bitmap.rs:23-26 | the byte-level write changes exactly that bit of the bit sequence |
| `FrameAllocator.FirstFit` | src/memory/frame.rs:79-145 | the naive reference: the lowest start whose run is set and ends below the bound, or none if there is none |
| `FrameAllocator.BitmapFrameAllocator.Search` | src/memory/frame.rs:113-144 | the nested skip-and-scan loops terminate and find exactly the first fit |
| `FrameAllocator.BitmapFrameAllocator.FindRun` | src/memory/frame.rs:88-144 | fast scan and search together compute the first fit, the fast path exactly when it starts at the cursor |
| `FrameAllocator.BitmapFrameAllocator.AllocateFrames` | src/memory/frame.rs:79-145 | first fit on the bitmap: exactly that run is cleared and counted, or nothing changes |
| `FrameAllocator.ManyExact` | src/memory/frame.rs:79-145 | fails exactly for a zero count, a counter that is too low, or no run of set bits from the cursor on below the byte count; otherwise the lowest such run is granted and cleared, and the cursor moves behind it only if it starts there |
| `FrameAllocator.BitmapFrameAllocator.AllocateFrame` | src/memory/frame.rs:149-165 | grants the frame at the cursor without looking at its bit and moves the cursor to the next set bit below the byte count |
| `FrameAllocator.OneExact` | src/memory/frame.rs:149-165 | the frame at the cursor is granted, only its bit is cleared, and the cursor moves to the next set bit below the byte count, or to the byte count if there is none |
| `FrameAllocator.BitmapFrameAllocator.DeallocateFrame` | src/memory/frame.rs:169-172 | sets the frame's bit; neither counter nor cursor changes |
| `FrameRuns.ManyConserves` | src/memory/frame.rs:79-145 | `allocate_frames` only grants free frames of the pool and conserves it |
| `FrameRuns.OneConserves` | src/memory/frame.rs:149-165 | `allocate_frame` grants a free frame of the pool if and only if the cursor names a set bit |
| `FrameRuns.SafeIffCursor` | src/memory/frame.rs:79-172 | on every run, grants are disjoint from everything outstanding and reserved if and only if the cursor names a set bit at each `allocate_frame`; then free and held frames make up the pool |
| `FrameRuns.UsableAccounting` | src/memory/frame.rs:79-172 | on every run the counter is its initial value minus the sizes of all grants |
| `FrameRuns.CursorInRange` | src/memory/frame.rs:79-172 | on every run that starts with the cursor inside the bitmap it stays there, so the unchecked index of `allocate_frame` can only fail for the cursor that start-up left |
| `FrameRuns.ReleasedBelowLost` | src/memory/frame.rs:79-172 | on every run from a cursor within the byte count, no frame below the cursor is granted again, even after it is released |
| `FrameRuns.CursorAfterOne` | src/memory/frame.rs:155-162 | `allocate_frame` leaves the cursor on a set bit if and only if its search succeeds or the bit at the byte count happens to be set |
| `FrameRuns.CursorAfterMany` | src/memory/frame.rs:99-110 | `allocate_frames` keeps the cursor condition if and only if it took the slow path or the bit after the run is set |
| `FrameRuns.CursorAfterRelease` | src/memory/frame.rs:169-172 | releasing a frame keeps the cursor condition |
| `FrameInit.FindBitmapRegion` | src/memory/frame.rs:30-34 | the first usable region that can hold the bitmap |
| `FrameInit.MarkRegion` | src/memory/frame.rs:46-56 | marking a region sets exactly its frames and counts all of them |
| `FrameInit.BitmapShortest` | src/memory/frame.rs:16-29 | the bitmap is the shortest with a bit for each whole frame of memory |
| `FrameInit.UsableMemory` | src/memory/frame.rs:46-56 | a frame counts as usable exactly when all its 4096 bytes lie in one usable region |
| `FrameInit.TakeBitmap` | src/memory/frame.rs:58-67 | taking out the bitmap's own frames cannot underflow the counter |
| `FrameInit.Init` | src/memory/frame.rs:16-76 | a bit is set exactly when its frame is usable and outside the bitmap, the counter is the number of set bits, and the assertion and the subtraction cannot fail |
| `FrameInit.InitPool` | src/memory/frame.rs:16-76 | the free frames after start-up are exactly the usable frames outside the bitmap, the pool that later runs conserve |
| `FrameInit.InitCursor` | src/memory/frame.rs:58-65 | after start-up the cursor is on a set bit if and only if the frame it names is usable |
| `FrameInit.FrameGrantedTwice` | src/memory/frame.rs:149-165 | from the state that start-up leaves for eight usable frames, the third `allocate_frame` grants a held frame while others are free |
| `FrameInit.ReservedFrameGranted` | src/memory/frame.rs:99-110 | from the state that start-up leaves for a map with a hole, `allocate_frames` and then `allocate_frame` grant the reserved frame |
| `ProcessImage.SamePhysical` | src/memory/page_table.rs:260-286 | two addresses on pages with frames of their own are the same byte only if they are the same address |
| `ProcessImage.TranslatePage` | src/memory/page_table.rs:260-286 | the bytes of a mapped page are those of its frame, in order |
| `ProcessImage.StoredFrame` | src/memory/page_table.rs:276-286 | storing bytes changes memory only where the bytes' addresses translate to |
| `ProcessImage.HoldsUnique` | src/memory/page_table.rs:260-286 | a read returns what was written there |
| `ProcessImage.LoadedKept` | src/task/process.rs:115-132 | writing one segment leaves a segment on other pages as it was |
| `ProcessImage.AddressSpace.Write` | src/memory/page_table.rs:276-286 | succeeds exactly when every byte is mapped, and otherwise stores exactly the bytes before the first unmapped address; across page boundaries the bytes become readable and nothing else on those pages changes |
| `ProcessImage.AddressSpace.Read` | src/memory/page_table.rs:260-274 | succeeds exactly when every byte is mapped and returns the bytes there |
| `ProcessImage.SpanPages` | src/memory/manager.rs:28-33 | the pages of a range are exactly those that hold one of its bytes; an empty range has the page of an unaligned start |
| `ProcessImage.AddressSpace.AllocRange` | src/memory/manager.rs:17-41 | success maps exactly the pages of the range, with the given flags, each to a distinct frame that was free and none mapped before; an already-mapped error means an overlap, and running out means fewer than four frames a page |
| `ProcessImage.AddressSpace.LoadSegment` | src/task/process.rs:117-130 | one segment is loaded and the earlier ones stay readable; failures as for the range |
| `ProcessImage.AddressSpace.MapSegments` | src/task/process.rs:115-132 | without a panic, every file byte of every segment is readable at its address and the segments lie on separate new pages, mapped present, writable and user-accessible to frames that were free; separate segments and four frames a page never panic |
| `ContextSwitch.SavedContext` | src/arch/interrupts.rs:98-123 | the stack image built by the interrupt frame and `push_context` is field for field the `Context` structure, and the handler's argument points at it |
| `ContextSwitch.SavedFrame` | src/arch/interrupts.rs:98-123 | saving writes nothing but the 21 words below the stack pointer |
| `ContextSwitch.ContextWritten` | src/task/scheduler.rs:62-66 | assigning a thread's context makes its structure equal to it and leaves every structure that does not overlap |
| `ContextSwitch.RestoredContext` | src/task/context.rs:90-115 | `pop_context` and the return load every register, cr3 included, from the structure |
| `ContextSwitch.SaveRestore` | src/task/context.rs:64-115 | `pop_context` undoes `push_context` for every register, whatever the handler left in them |
| `Scheduling.Scheduler.AddThread` | src/task/scheduler.rs:42-44 | in place: the thread goes to the front of the queue |
| `Scheduling.Scheduler.RemoveThread` | src/task/scheduler.rs:47-52 | the retain loop removes exactly that thread |
| `Scheduling.Scheduler.DoSchedule` | src/task/scheduler.rs:60-87 | in place switch: queue, statuses, current thread and kernel stack of the processor, and the returned context is that of the processor's new thread |
| `Scheduling.SwitchedAway` | src/task/scheduler.rs:70-78 | with a thread waiting, the thread switched away from goes to the end of the queue if it is running or ready, and nowhere if it is gone, blocked, waiting or terminated |
| `Scheduling.AddInv` | src/task/scheduler.rs:42-44 | adding keeps the invariant if and only if the thread is neither queued nor current |
| `Scheduling.RemoveInv` | src/task/scheduler.rs:47-52 | removing keeps the invariant and takes exactly that thread from the queue |
| `Scheduling.ScheduleInv` | src/task/scheduler.rs:60-87 | a switch keeps the invariant and loses from the population exactly the thread switched away from when it is dead, blocked, waiting or terminated |
| `SchedulerRuns.RunInv` | src/task/scheduler.rs:42-87 | on every run over any number of processors no thread is current twice, queued twice, or both |
| `SchedulerRuns.RunStacks` | src/task/scheduler.rs:79-84 | on every run each processor that has switched has the kernel stack of its current thread |
| `SchedulerRuns.NotRunUntilAdded` | src/task/scheduler.rs:42-87 | a thread that is neither queued nor current never runs until it is added |
| `SchedulerRuns.BlockedUntilAdded` | src/task/scheduler.rs:42-87 | after any run, a thread switched away from while blocked, waiting or terminated is neither queued nor current until it is added again |
| `SchedulerRuns.ActiveKept` | src/task/scheduler.rs:42-87 | no thread is lost: on every run, one that stays running or ready and is not removed stays queued or current |
| `SchedulerRuns.IndexWithout` | src/task/scheduler.rs:47-52 | a removal moves exactly the threads behind the removed one forward |
| `SchedulerRuns.WaitingStep` | src/task/scheduler.rs:42-78 | each event moves a waiting thread by exactly one place: back for an addition, forward for a switch or a removal ahead |
| `SchedulerRuns.WaitingLaw` | src/task/scheduler.rs:42-78 | over any run a waiting thread's position is the first one plus additions minus switches on all processors minus removals ahead |
| `SchedulerRuns.DispatchedAtFront` | src/task/scheduler.rs:70-78 | a switch dispatches a queued thread exactly when it is at the front |
| `SchedulerRuns.DispatchedAfter` | src/task/scheduler.rs:42-87 | the next switch dispatches a waiting thread if and only if switches plus removals ahead equal its first position plus additions: at position i, on the (i + 1)-th switch |
| `SchedulerRuns.Starvation` | src/task/scheduler.rs:42-44 | for every n there is a run with n switches in which a queued thread never moves, because additions go to the front |
| `SwitchRuns.RunLogged` | src/task/scheduler.rs:60-87 | after any run every thread's saved context is the registers it was last interrupted or created with, and lies in memory at the thread's own structure, apart from all others |
| `SwitchRuns.StoredExact` | src/task/scheduler.rs:60-87 | after the interrupt's pushes and the handler's store, the structure of the interrupted thread holds the registers it had and every other one what it held |
| `SwitchRuns.ResumedExactly` | src/arch/interrupts.rs:98-123 | after any run a switch, popping from the memory of the next thread's structure, resumes it with exactly the registers of its last interruption, on whichever processor that was, or its initial ones, and changes no other processor |
| `PciWalk.Extend` | src/drivers/pci.rs:954-960 | exact listings of neighbouring slot ranges append to an exact listing in depth-first order |
| `PciWalk.Behind` | src/drivers/pci.rs:890-912 | a bridge followed by the exact listing of its secondary bus is the exact listing of the bridge's slot |
| `PciWalk.Leaf` | src/drivers/pci.rs:890-912 | a function without a bus behind it is listed unless its layout is unrecognised; a bridge class with another layout is listed and then stops the walk |
| `PciLoops.PathBound` | src/drivers/pci.rs:890-960 | without loops a reachable path goes through at most 256 buses |
| `PciLoops.BoundedIffNoLoop` | src/drivers/pci.rs:890-960 | the depth of the walk is bounded if and only if no reachable path comes back to a bus it has met |
| `PciLoops.UpwardNoLoop` | src/drivers/pci.rs:905-910 | bridges whose secondary bus is above their own make no loop |
| `PciEnumeration.Enumerator.ReadHeader` | src/drivers/pci.rs:595-672 | the two header errors exactly, and the list grows exactly on success with add_to_list |
| `PciEnumeration.Enumerator.CheckFunction` | src/drivers/pci.rs:890-912 | lists exactly the function and what is reachable behind it, up to the first faulty function |
| `PciEnumeration.Enumerator.CheckDevice` | src/drivers/pci.rs:916-951 | lists exactly what is reachable through the device's eight functions, up to the first faulty one |
| `PciEnumeration.Enumerator.CheckBus` | src/drivers/pci.rs:954-960 | lists exactly what is reachable through the bus's 32 devices, up to the first faulty function |
| `PciEnumeration.Enumerator.CheckAllBuses` | src/drivers/pci.rs:871-887 | without loops the walk terminates; in terms of configuration bytes alone: it succeeds if and only if no reachable function has a layout above 2, or class 6 and subclass 4 or 9 with a layout other than 1; it lists exactly the reachable functions up to the first such one, in depth-first order, and reports that one's error |
| `PciChains.ChainFound` | src/drivers/pci.rs:890-960 | a chain of answering functions, each on the bus behind the one before, which has layout 1, class 6 and subclass 4 or 9, is a path of the walk |
| `PciChains.FoundChain` | src/drivers/pci.rs:890-960 | every path of the walk is such a chain |
| `PciChains.AnswersIff` | src/drivers/pci.rs:916-951 | functions 1 to 7 of a device are visited exactly when bit 7 of function 0's header type is set |
| `PciChains.FaultyIff` | src/drivers/pci.rs:890-912 | the two errors of a function, by its header type, class and subclass |
| `PciChains.ExactOutcome` | src/drivers/pci.rs:871-960 | what a walk lists and reports, said of chains of functions |
| `PciListing.ExactUnique` | src/drivers/pci.rs:871-960 | the topology leaves only one possible list and outcome |
| `PciListing.PathUnique` | src/drivers/pci.rs:890-912 | unless two paths lead to its bus, a function is reached by one path only |
| `PciListing.ListedOnce` | src/drivers/pci.rs:871-960 | for every topology: a completed walk lists exactly the reachable functions, and each once if and only if no two different paths lead to the same non-empty bus |
| `PciListing.DistinctNotShared` | src/drivers/pci.rs:871-912 | with distinct secondary buses and no bridge back to a root bus, no two paths lead to the same bus |
| `PciListing.SingleRootNoClash` | src/drivers/pci.rs:871-887 | without loops a single-function host has no bridge back to bus 0 |
| `PciListing.SingleHostOnce` | src/drivers/pci.rs:871-887 | with a single-function host, distinct secondary buses and no loop, a completed walk lists every reachable function exactly once |
| `PciListing.MultiFunctionHostRepeats` | src/drivers/pci.rs:881-885 | a concrete multi-function host, walked without error, whose bus 1 is listed twice |
| `PciBars.ConfigSpace.Probe` | src/drivers/pci.rs:1208-1220 | probing finds the size and leaves the register exactly as it was |
| `PciBars.ConfigSpace.BarInit` | src/drivers/pci.rs:1198-1290 | all registers are as found on success and on every error, no upper half of a 64-bit pair is written, and the result is an error exactly when some register is invalid, otherwise each register's decoding |
| `PciBars.MemoryBarExact` | src/drivers/pci.rs:1208-1241 | a memory decoder of 2^k bytes, 4 <= k <= 31, is sized 2^k, with its base address, type and prefetch flag |
| `PciBars.WideBarExactIff` | src/drivers/pci.rs:1208-1241 | a 64-bit decoder of 2^k bytes is sized correctly if and only if k <= 31 |
| `PciBars.WideUpperProbed` | src/drivers/pci.rs:1204-1241 | the upper half is left alone if and only if k <= 31; a larger one is reported unused |
| `PciBars.IoBarExactIff` | src/drivers/pci.rs:1208-1227 | an I/O decoder of 2^k bytes is sized correctly if and only if k >= 4; smaller ones are reported as 16 bytes |
| `PciBars.NarrowIoBarWrong` | src/drivers/pci.rs:1208-1227 | an I/O decoder of sixteen address bits is never sized correctly: the upper bits that read as zero are counted as size |
| `PciBars.JoinHalves` | src/drivers/pci.rs:1230-1239 | both halves of an assembled 64-bit address can be recovered |
| `PciBars.DeviceExact` | src/drivers/pci.rs:1198-1290 | of any device of memory decoders below 4 GiB and I/O decoders of at least 16 bytes, exactly the registers with reserved type 3 and a 64-bit one in the last place are invalid, and the others are reported as they are |
| `HeapBlocks.TotalFits` | src/memory/user_heap.rs:126-134 | disjoint blocks inside an arena add up to at most the arena |
| `ProcessHeap.NoUnderflow` | src/memory/user_heap.rs:126-134 | subtracting the size of a block the inner allocator returned cannot underflow |
| `ProcessHeap.RunInv` | src/memory/user_heap.rs:52-176 | on every run after `init` the mapped heap pages are exactly the size/4096 consecutive pages from HEAP_START on distinct frames, the arena lies within them, and usable size plus live sizes is the size |
| `ProcessHeap.UserHeap.Init` | src/memory/user_heap.rs:52-77 | the first 32 pages are mapped to frames of their own and the invariant holds; it panics only if one of them is taken or fewer than four frames a page are free |
| `ProcessHeap.UserHeap.Sbrk` | src/memory/user_heap.rs:79-117 | the heap grows by the rounded number of pages right above its end; it panics only if one of them is taken or fewer than four frames a page are free |
| `ProcessHeap.UserHeap.Allocate` | src/memory/user_heap.rs:119-135 | the block is the inner allocator's first answer, or its answer after growing by twice the size, and the accounts balance; it panics only if both answers fail or the heap cannot grow |
| `ProcessHeap.UserHeap.Deallocate` | src/memory/user_heap.rs:137-146 | giving back a live block balances the accounts |
| `ProcessHeap.RemovedNext` | src/memory/user_heap.rs:157-173 | each frame given back was not free, so none is given back twice |
| `ProcessHeap.UserHeap.Clear` | src/memory/user_heap.rs:148-176 | every heap page is unmapped, no unmapping fails, all other pages stay, and each heap frame is given back exactly once |

## Left out

- Controller bring-up, identify parsing, the admin queue and queue creation: register plumbing and fixed layouts.
- `write_copied`, `read_copied`, `read_block`, `write_block`, `clear_namespace`: their chunk sizes exceed the staging buffer or the block they name, so there is no general law to state.
- Register access, ports, CR3 loads, TLB flushes, volatile reads and logging: hardware effects without state of interest here.
- The size of the rings' memory: they are declared with 1024 entries over 4096 bytes; the model has `len` slots and says nothing about the allocation.
- 64-bit overflow of addresses, block numbers and counters: integers are unbounded except where a bound is stated.
- `PciRoot::map`, capability iterators, MSI-X and the device structures' other fields: easy members or no coverage law.
- TTY, display, keyboard, serial, RTC, FPU, xHCI, ACPI, APIC, GDT, SMP start-up, system calls, signals and the mouse decoder: input, output, or small wrappers.
- The kernel variant of the process heap: it has size zero and every operation panics.
- NvmeDriver.NvmeDevice.CompleteIo: completions report success, because `complete_n` discards the statuses of all but the last entry.
- NvmeQueuePair.NvmeQueuePair.CompleteIo: completions report success, as for the device.
- NvmeTransfers.OnePage: a controller may also report an error for a first PRP entry that is not a multiple of four; error statuses are not modelled.
- NvmeDriver.NvmeDevice.BatchedWrite: takes rings of at least nine entries, the least that hold a batch of eight, and chunks of at least one 512-byte block, since a shorter last chunk divides by zero in the code.
- NvmeDriver.NvmeDevice.NamespaceIo: takes page-aligned addresses, which is what its callers pass for buffers of `Dma::allocate`.
- NvmeDriver.NvmeDevice.Write: takes page-aligned buffers of whole pages, which is what `Dma::allocate` returns; `NvmeDma.PrpContiguousIff` says what happens to other slices.
- FrameAllocator.BitmapFrameAllocator.AllocateFrame: requires the cursor to be inside the bitmap while frames are counted as usable, since the code indexes there without a test.
- FrameInit.Init: takes sorted, disjoint, page-aligned maps, and one with a region that can hold the bitmap, since the code panics otherwise.
- ProcessImage.AddressSpace.MapSegments: says nothing about bytes of a segment beyond its file bytes, which the code does not clear.
- ProcessImage.AddressSpace.AllocRange: `map_to` adds one mapping and takes up to three frames for missing tables; the tables themselves are in `PageTables` only for copying.
- PageTables.PhysicalMemory.NewFromAddress: takes frames outside the source's tables, which is what a sound frame allocator provides.
- SwitchRuns.ResumedExactly: floating-point state is not modelled, and no code but the switch is taken to write a thread's context structure.
- PciEnumeration.Enumerator.CheckAllBuses: requires that no reachable path comes back to a bus, since the depth of the walk is unbounded otherwise.
- PciEnumeration.Enumerator.CheckBus: requires the same, as part of that walk.
- PciEnumeration.Enumerator.CheckDevice: requires the same, as part of that walk.
- PciEnumeration.Enumerator.CheckFunction: requires the same, as part of that walk.
- PciBars.ConfigSpace.BarInit: does not model mapping the BAR's pages into the kernel page table, nor the panic on addresses beyond 52 bits.
- PciBars.IoBarExactIff: takes decoders that implement all upper address bits; `PciBars.NarrowIoBarWrong` has the sixteen-bit ones.
- ProcessHeap.UserHeap.Sbrk: the inner allocator's own writes at the end of its arena are not modelled, nor the fixed flags of heap pages.
- ProcessHeap.UserHeap.Init: the fixed flags of heap pages are not modelled.
- ProcessHeap.UserHeap.Deallocate: takes a live block, which is what the unsafe deallocation demands of its callers.
