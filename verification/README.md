# A verified model of the min-rust-os kernel core

This project models the parts of the `min-rust-os` kernel that carry state and invariants, in Dafny 4.11,
and proves what the kernel relies on. `dafny verify dfyconfig.toml` checks all of it.

| files | what they model |
|---|---|
| `KernelMachine`, `KernelSafety`, `KernelRuns`, `KernelTasks`, `KernelProgress`, `KernelLimits` | the executor, the keyboard stream and the interrupts as one machine, its invariant, its runs, where its keyboard tasks come from, how it comes to rest, and how far its promises reach |
| `Kernel` | the same code as a class that updates its fields, proved to follow the machine |
| `FreeList`, `FreeListHistory` | the linked-list allocator on sequences of regions, and its histories |
| `LinkedListHeap`, `LinkedListHistory` | the same allocator with its list as nodes in byte memory |
| `FixedBlocks`, `FixedBlockHeap` | the fixed-size block allocator, its histories, and its lists in byte memory |
| `Bump` | the bump allocator |
| `Alignment`, `ByteMemory`, `Layouts` | `align_up`, words in bytes, layouts and regions |
| `Paging`, `Frames` | the page-table walk, the frame allocator and the mapping of the heap |
| `ScreenLayout`, `VgaWriter` | the layout of a text on the screen, and the buffer scrolled in place |

**The executor.** Each action of the machine is one step that an interrupt cannot divide. Between any two of
them, while the interrupt flag is set, a key press or a timer tick may happen; the other futures do what they
like when polled (wake any waker ever issued, finish or not). A panic is a state that nothing leaves.
The class `Kernel.Executor` is the same code with its fields updated in place: before every step that interrupts
can precede it lets arrive what its environment has for that point, and its invariant says that the interrupts and
the other futures' moves it has met are the given ones, each once and in order. `register`, `wake` and `take` on the `AtomicWaker` are single steps, and `wake`
empties the slot. Wakers carry
a serial number, so that "the waker in the slot is the one in the cache" means the same allocation.

**The allocators.** Addresses are naturals; the heap ends at or below 2^63, and a `Layout` has a power-of-two
alignment and a size that stays below 2^63 when padded, as Rust guarantees. Free-list nodes are little-endian
words in the same bytes that clients own, so separation is about bytes, and histories of the bytes mix the
allocator's calls with the owners' own writes. The fallback heap of the fixed-size
block allocator is known by its contract: what it hands out is aligned, inside the heap and disjoint from what
it has out, and it writes only where it has nothing out.

**Where code and comments disagree, the model follows the code.** The comment at
`allocator/linked_list.rs:118-122` describes a check of the excess size that `alloc_from_region` does not
make; `AllocPanicsExactly` says exactly when `alloc` panics because of it, `SmallRemainderPanics` gives an
input, and `SixteenByteHistoryNeverPanics` a condition under which no history does. Bytes skipped in front of
an aligned allocation are never returned; they are the `padding` of the accounting. The comment at
`memory.rs:203` speaks of skipping `next - 1` frames; `nth(next)` skips `next`.

## Model

| member | source | states |
|---|---|---|
| KernelSafety.RunKeepsInv | min-rust-os/src/task/executor.rs:38-106 | every run, under any interleaving of interrupts and any behaviour of the other futures, keeps the invariant (queues bounded, scancodes conserved, one stream owner, wakers cached, no wake-up lost, no task forgotten, finished tasks gone, IDs unique) |
| KernelSafety.NextKeepsInv | min-rust-os/src/task/keyboard.rs:24-90 | one step of the kernel, an interrupt or a future keeps it |
| KernelSafety.NoWakeupIsLost | min-rust-os/src/task/keyboard.rs:63-90 | in every reachable state a keyboard task that is not being polled is queued, or no scancode waits and its own cached waker is registered |
| KernelSafety.HaltIsSound | min-rust-os/src/task/executor.rs:91-106 | no interrupt fits between the recheck and `hlt`; at `hlt` nothing is queued, every task has been polled, every accepted scancode is consumed, and the keyboard task is registered |
| KernelSafety.KeyPressEndsHalt | min-rust-os/src/task/keyboard.rs:30-36 | a scancode accepted while halted leaves exactly the keyboard task queued and never panics |
| KernelSafety.ScancodesAreConserved | min-rust-os/src/task/keyboard.rs:24-40 | accepted = consumed, then the one in delivery, then the queue, in order; a key is dropped exactly when the queue is missing or holds 100 |
| KernelSafety.HandlerFreesNoWaker | min-rust-os/src/task/executor.rs:19-24 | the waker the interrupt handler takes from the slot is still in the cache afterwards, so the handler never drops a last reference |
| KernelSafety.FinishedIsNeverPolled | min-rust-os/src/task/executor.rs:55-80 | a finished task is never polled again however many IDs are left queued, and at the loop head every cached waker belongs to a task |
| KernelSafety.SpawnNeverFindsDuplicate | min-rust-os/src/task/mod.rs:16-23 | with at most 2^64 IDs issued the duplicate-ID panic is unreachable; the missing-queue panic of `poll_next` always is |
| KernelSafety.WakeQueues | min-rust-os/src/task/executor.rs:125-130 | a future's wake-up of any task polled before queues its ID behind the others, or panics on 100, and changes nothing else |
| KernelSafety.SpawnStores | min-rust-os/src/task/executor.rs:38-45 | a spawn fails exactly on a taken ID or 100 queued, and else stores the very future under its ID and queues the ID |
| KernelTasks.KeyboardsWereCreated | min-rust-os/src/task/keyboard.rs:42-58 | over every run, keyboard tasks are no more than were created as such; without one the stream is never made, and making it twice takes two |
| KernelRuns.DuplicateAfterWrapAround | min-rust-os/src/task/executor.rs:38-45 | with one ID more the panic is reachable: the bound is tight |
| KernelSafety.IdleIsDrained | min-rust-os/src/task/executor.rs:55-92 | outside every poll an empty task queue means that every accepted scancode is consumed and the keyboard task is registered |
| KernelLimits.KernelHalts | min-rust-os/src/task/executor.rs:82-106 | a kernel with one keyboard task, left alone, halts registered and with nothing to do, so the halts spoken of exist |
| KernelLimits.SecondPopIsNeeded | min-rust-os/src/task/keyboard.rs:77-89 | with the second pop of `poll_next` left out, a run ends halted with an accepted scancode unread and its task not queued |
| KernelLimits.MaskIsNeeded | min-rust-os/src/task/executor.rs:96-105 | with `interrupts::disable` left out, a run ends halted with the keyboard task queued |
| KernelLimits.QueueFullNeedsPushes | min-rust-os/src/task/executor.rs:128-130 | the queue-full panic takes more than 100 spawned tasks or more than 101 spawns, wake-ups and key presses together, so one keyboard task survives any 100 key presses |
| KernelLimits.KeyPressesFillTaskQueue | min-rust-os/src/task/keyboard.rs:77-89 | 101 key presses, each just after the one keyboard task has registered, do reach that panic: the bound is tight |
| KernelLimits.QueueFullNeedsPushesSinceHalt | min-rust-os/src/task/executor.rs:128-130 | from every halt, however long the kernel has run, the panic takes more than 101 further wake-ups and key presses |
| KernelLimits.KeyPressesFillTaskQueueSinceHalt | min-rust-os/src/task/keyboard.rs:77-89 | from every halt with a keyboard task, 102 key presses can reach it: that bound is tight too |
| KernelProgress.OwnStepsAreBounded | min-rust-os/src/task/executor.rs:46-106 | over every run and interleaving the kernel's own steps are at most what its state still calls for and 20 for every action of the environment |
| KernelProgress.StopsOnlyAtRest | min-rust-os/src/task/executor.rs:82-106 | after `run` has begun the kernel has no step to make if and only if it has panicked or halted, and a halt means nothing queued, every task polled, every accepted scancode consumed |
| KernelProgress.ComesToRest | min-rust-os/src/task/executor.rs:82-106 | left alone, from every reachable state, it panics or halts drained within that many steps |
| KernelProgress.QueuedIsPolled | min-rust-os/src/task/executor.rs:55-70 | by the time the queue is found empty outside a poll, every ID queued before has been looked up and its task, if it exists, polled |
| KernelProgress.WokenIsPolledAgain | min-rust-os/src/task/executor.rs:125-130 | a task that a future wakes is polled again before the kernel next halts, unless it is finished |
| KernelRuns.BurstWakesOnce | min-rust-os/src/task/keyboard.rs:31-36 | over any run in which the keyboard task does not register again, ticks and other tasks' steps included, key presses add at most one entry to the task queue, none if no waker is registered |
| KernelRuns.BurstWakesExactly | min-rust-os/src/task/keyboard.rs:31-36 | between registering and taking the waker back, the entry is added exactly when a waker is registered and some scancode is accepted |
| KernelRuns.WakeupsAreServedInOrder | min-rust-os/src/task/executor.rs:55-64 | whatever happens, the ID at position i stays queued and is the (i+1)-st to be popped |
| KernelRuns.HaltRoundTrip | min-rust-os/src/task/executor.rs:82-106 | up to 100 keys pressed during a halt are consumed in order in 12 + 2n steps, and the kernel is back in the very state it halted in |
| KernelRuns.LoopDrainsQueue | min-rust-os/src/task/keyboard.rs:102-111 | the loop of `print_keypresses` consumes the whole queue in order |
| Kernel.Executor.Spawn | min-rust-os/src/task/executor.rs:38-45 | the fields end up as the machine's spawn says, each panic exactly when the source's, else the task's own future under its ID and the ID queued last |
| Kernel.Executor.WakeByFuture | min-rust-os/src/task/executor.rs:125-130 | a waker that was issued queues its ID last, or panics on a full queue |
| Kernel.Executor.NewTask | min-rust-os/src/task/mod.rs:45-50 | the task gets the counter's old value, and the counter wraps at 2^64 |
| Kernel.Executor.AddScancode | min-rust-os/src/task/keyboard.rs:24-40 | the handler's updates are the machine's key press |
| Kernel.Executor.PollNext | min-rust-os/src/task/keyboard.rs:63-90 | ready with the oldest accepted scancode not yet consumed; pending only when every accepted one is consumed and the task is queued or its own waker registered |
| Kernel.Executor.PollKeyboard | min-rust-os/src/task/keyboard.rs:93-112 | returns, never ready, when everything accepted before and during the poll has been consumed, and is queued or registered for the next |
| Kernel.Executor.RunReadyTasks | min-rust-os/src/task/executor.rs:46-81 | it follows the machine, the interrupts and moves it takes are handled each once and in order, it ends, and ends with the queue found empty, every ID that was queued looked up and polled, and every scancode accepted so far consumed |
| Kernel.Executor.RunUntilQuiet | min-rust-os/src/task/executor.rs:82-90 | for all given interrupts and moves of other futures, the kernel panics or ends up halted with exactly the given interrupts handled, in order, no ID queued, every task polled and every accepted scancode consumed |
| Kernel.Executor.SleepIfIdle | min-rust-os/src/task/executor.rs:91-106 | halts exactly when the queue is still empty with interrupts off, and then everything accepted is consumed |
| FreeList.AllocKeepsValid | min-rust-os/src/allocator/linked_list.rs:150-178 | regions stay aligned, at least 16 bytes, in the heap, apart from each other and from every live block, and every byte accounted for; a pointer is aligned and skips less than the alignment; null means no aligned place exists and changes nothing |
| FreeList.DeallocKeepsValid | min-rust-os/src/allocator/linked_list.rs:180-188 | freeing a live allocation fails no assertion, keeps all of that, and lists exactly the freed block |
| FreeList.AllocPanicsExactly | min-rust-os/src/allocator/linked_list.rs:69-70 | `alloc` panics if and only if the adjusted layout is invalid or the first fit leaves 1 to 15 bytes; never for alignment |
| FreeList.FitMeaning | min-rust-os/src/allocator/linked_list.rs:113-134 | a fit is the lowest aligned place for the request in the region, and no fit means there is none |
| FreeList.AllocIsFirstFit | min-rust-os/src/allocator/linked_list.rs:150-178 | the block is at the lowest aligned place of the first region that has one; that region leaves the list and what is behind the block goes to its front |
| FreeList.SizeAlignIsLeast | min-rust-os/src/allocator/linked_list.rs:138-146 | the adjusted alignment is at least 8, the adjusted size the smallest multiple of it that holds the request, or 16; the failing layouts exactly |
| FreeListHistory.Run | min-rust-os/src/allocator/linked_list.rs:149-196 | every state of every history that does not panic is valid |
| FreeListHistory.BytesAreConserved | min-rust-os/src/allocator/linked_list.rs:124-145 | over every such history free + live + skipped bytes = the heap, and nothing is skipped when no alignment exceeds 8 |
| FreeListHistory.SixteenByteHistoryNeverPanics | min-rust-os/src/allocator/linked_list.rs:168-173 | with start, size and adjusted requests in multiples of 16 no history fails an assertion |
| FreeListHistory.SmallRemainderPanics | min-rust-os/src/allocator/linked_list.rs:118-133 | a 32-byte request on a 40-byte heap fits and panics |
| LinkedListHeap.LinkedListAllocator.Init | min-rust-os/src/allocator/linked_list.rs:53-55 | succeeds exactly when the heap can hold a node, and then the bytes hold the one-region list |
| LinkedListHeap.LinkedListAllocator.AddFreeRegion | min-rust-os/src/allocator/linked_list.rs:63-78 | passes exactly when both assertions hold, prepends the region to the chain in memory, writes nowhere else |
| LinkedListHeap.LinkedListAllocator.FindRegion | min-rust-os/src/allocator/linked_list.rs:82-109 | the pointer-chasing loop ends and unlinks exactly the first region that fits, keeping the order of the rest; None with nothing changed exactly when none fits |
| LinkedListHeap.LinkedListAllocator.Alloc | min-rust-os/src/allocator/linked_list.rs:150-178 | the bytes afterwards stand for the heap the region model gives, and only bytes of old free regions change |
| LinkedListHeap.LinkedListAllocator.Dealloc | min-rust-os/src/allocator/linked_list.rs:180-188 | likewise, and only bytes of the freed block change |
| LinkedListHeap.OtherLiveBytesKept | min-rust-os/src/allocator/linked_list.rs:72-77 | such a change touches no byte of any other live block |
| LinkedListHeap.LinkedListAllocator.ClientWrite | min-rust-os/src/allocator/linked_list.rs:72-77 | an owner's write anywhere in its block disturbs no node of the list |
| LinkedListHistory.BytesBelongToOwner | min-rust-os/src/allocator/linked_list.rs:149-196 | over every history of calls and owners' writes that does not panic, an allocation that is not freed stays live and each of its bytes is its first value or what its own owner last wrote |
| FixedBlocks.ListIndex | min-rust-os/src/allocator/fixed_size_block.rs:66-77 | the first class that is large enough for both size and alignment, None exactly if either is above 2048 |
| FixedBlocks.StepKeepsValid | min-rust-os/src/allocator/fixed_size_block.rs:79-150 | listed blocks are out once each under their class's layout, live ones under theirs, pairwise disjoint, none lost, and counted |
| FixedBlocks.AllocServes | min-rust-os/src/allocator/fixed_size_block.rs:80-118 | what is handed out, fresh or reused under another layout, has the size and alignment asked for and is apart from everything live or listed; null comes only from the fallback |
| FixedBlocks.LiveIsApart | min-rust-os/src/allocator/fixed_size_block.rs:89-113 | in every valid state live allocations are aligned, in the heap, and apart from each other and from listed blocks |
| FixedBlocks.FallbackGetsBackWhatItGave | min-rust-os/src/allocator/fixed_size_block.rs:120-149 | a deallocation in the fallback matches an outstanding allocation with the same layout; a listed block passes both assertions and is aligned to its size |
| FixedBlocks.HighWaterMark | min-rust-os/src/allocator/fixed_size_block.rs:86-140 | after any history, blocks carved for a class = live + listed = the most ever live at once |
| FixedBlocks.FreedIsReused | min-rust-os/src/allocator/fixed_size_block.rs:89-140 | the next request of a freed block's class gets that very block without the fallback, and freeing undoes the reuse |
| FixedBlockHeap.FixedSizeBlockAllocator.Alloc | min-rust-os/src/allocator/fixed_size_block.rs:80-118 | the chains in memory stay the lists; only the first word of the popped block, or what the fallback may write, changes |
| FixedBlockHeap.FixedSizeBlockAllocator.Dealloc | min-rust-os/src/allocator/fixed_size_block.rs:120-149 | likewise for the freed block |
| FixedBlockHeap.OtherLiveBytesKept | min-rust-os/src/allocator/fixed_size_block.rs:132-146 | no call changes a byte of a live allocation it was not asked to free |
| FixedBlockHeap.FixedSizeBlockAllocator.ClientWrite | min-rust-os/src/allocator/fixed_size_block.rs:132-139 | an owner's write anywhere in its allocation disturbs no list |
| FixedBlockHeap.BytesBelongToOwner | min-rust-os/src/allocator/fixed_size_block.rs:79-150 | over every history of calls and owners' writes an allocation that is not freed stays live under its layout and each of its bytes is its first value or what its own owner last wrote |
| Bump.AllocKeepsValid | min-rust-os/src/allocator/bump.rs:40-63 | live allocations stay aligned, in order, disjoint and inside start..next; the pointer is the lowest aligned place at or above `next`, which moves behind it; null exactly when no aligned place is left |
| Bump.DeallocKeepsValid | min-rust-os/src/allocator/bump.rs:65-74 | the same; `next` returns to the start exactly when the last allocation is freed, and else stays |
| Bump.NextOnlyFallsWhenEmpty | min-rust-os/src/allocator/bump.rs:65-74 | over a whole history that never runs empty, `next` never falls |
| Bump.LiveFitsHeap | min-rust-os/src/allocator/bump.rs:59-61 | with no empty requests the counter is at most the bytes in use |
| BumpHeap.BumpAllocator.Alloc | min-rust-os/src/allocator/bump.rs:40-63 | the counter equals the number of live allocations |
| BumpHeap.BumpAllocator.Dealloc | min-rust-os/src/allocator/bump.rs:65-74 | the counter never underflows |
| Alignment.AlignUpIsLeastMultiple | min-rust-os/src/allocator.rs:118-141 | the mask form equals the remainder form and is the least multiple at or above the address |
| Alignment.AddressesDoNotOverflow | min-rust-os/src/allocator.rs:131-141 | addresses and alignments up to 2^63 cannot overflow it |
| Paging.TranslateAddr | min-rust-os/src/memory.rs:67-98 | the loop finds what recursive lookup in the four-level tree of tables finds, both panics included |
| Paging.WrittenTablesTranslate | min-rust-os/src/memory.rs:79-97 | four present, small entries written at 8 bytes times their index map the address into the last one's frame; behind fewer, a missing, huge or unaddressable entry gives unmapped or the panics |
| Paging.TranslationExactly | min-rust-os/src/memory.rs:79-94 | unmapped exactly when the walk reads an entry that is not present, one panic exactly when it reads a huge one, the other exactly when it comes to a table whose address is not canonical, mapped exactly when it reads four frames |
| Paging.AddressesAreFormed | min-rust-os/src/memory.rs:61-63 | with every frame a walk comes to inside a physical memory that is mapped at canonical addresses, as the caller must guarantee, no table address panics; a result fits 52 bits |
| Paging.VirtAdd | min-rust-os/src/memory.rs:81 | the addition fails exactly on overflow or where bits 47 to 63 call for no sign extension; what it gives is canonical and has the low 48 bits of the sum |
| Paging.PagesMapToFrames | min-rust-os/src/memory.rs:96-97 | a translation keeps the page offset and sends one page to one frame |
| Paging.IndexesReconstruct | min-rust-os/src/memory.rs:71-76 | the four indexes and the offset are the low 48 address bits |
| Paging.EntryRoundTrip | min-rust-os/src/memory.rs:87-93 | an entry made of a frame and flags decodes to the frame exactly when present and not huge |
| Frames.UsableFramesExactly | min-rust-os/src/memory.rs:174-192 | for a page-aligned map with disjoint usable regions, every usable frame, no other, none twice |
| Frames.UsableFramesInOrder | min-rust-os/src/memory.rs:174-192 | for any map, the j-th frame of a region holds the address 4096 j behind its start and stands behind all frames of the regions before |
| Frames.RebuiltIsStored | min-rust-os/src/memory.rs:196-207 | rebuilding the iterator and skipping gives what a stored iterator would |
| Frames.BootInfoFrameAllocator.AllocateFrame | min-rust-os/src/memory.rs:201-207 | successive calls yield the usable frames in order, then None for good |
| Frames.InitHeap | min-rust-os/src/allocator.rs:52-93 | mapped if and only if `map_to` accepts all 25 pages and the frames left cover pages and tables; a refusal if and only if the frames reach the first refused page; else the frames are used up; the allocator moves on by what was drawn, each page's frame first and then its tables', none twice |
| ScreenLayout.WritingIsLayout | min-rust-os/src/vga_buffer.rs:97-139 | writing byte by byte shows the last 25 rows of the text cut into lines and rows of 80, a full row making no blank one |
| ScreenLayout.PrintedLineIsLastButOne | min-rust-os/src/vga_buffer.rs:199-213 | a line printed between newlines stands in the last row but one, from any screen |
| VgaWriter.Writer.NewLine | min-rust-os/src/vga_buffer.rs:130-139 | the ascending copy in place is a pure upward shift with a blank last row |
| VgaWriter.Writer.ClearRow | min-rust-os/src/vga_buffer.rs:141-150 | blanks one row, no other cell |
| VgaWriter.Writer.WriteByte | min-rust-os/src/vga_buffer.rs:97-116 | one byte of the layout; cell by cell, a newline scrolls, another byte stands in the writer's colour at the column, after a scroll from column 80 |
| VgaWriter.Writer.WriteString | min-rust-os/src/vga_buffer.rs:118-128 | the screen shows the layout of the whole text with 0xfe for what cannot be printed; a string that fits the last row stands there byte for byte from the old column on, and no other cell changes |

## Left out

- Kernel.Executor.RunUntilQuiet: the endless loop of `run` is followed up to the halt that no interrupt ends, and the contract does not say before which step an interrupt is handled; `KernelProgress` covers every interleaving.
- Memory orderings and several cores: one core, with interrupt handlers as single steps; an interrupt inside `AtomicWaker::register` is not modelled.
- Decoding of scancodes to keys and printing them: only their consumption is modelled.
- The page tables being mapped: every word a walk asks for is there, which callers of `translate_addr` must guarantee.
- The entries that `map_to` writes: `map_to` is a parameter of `InitHeap`, the number of frames it draws for tables and whether it accepts the page.
- Bump.LiveFitsHeap: the counter is a natural; with zero-sized requests, which `GlobalAlloc` forbids, the source's counter could overflow.
- The internals of `linked_list_allocator::Heap`, `ArrayQueue`, `OnceCell` and `spin::Mutex`: contracts only; the lock of `Locked` is not modelled.
- `gdt.rs`, `serial.rs`, IDT and PIC setup, exception handlers, `main.rs`, the print macros, `simple_executor.rs`, `Dummy`, `EmptyFrameAllocator`, `create_example_mapping`, `ColourCode::new`: hardware setup, plumbing, or members with one easy branch.
