# Hyperion kernel: a verified model

This project models the hand-written data structures and walkers of the Hyperion
kernel in Dafny 4.11 and proves what they keep over whole runs. Objects that the kernel
updates in place are classes with `modifies` clauses; loops are loops with invariants;
pure code is functions. Every method is proved against a specification function, and the
properties are lemmas about those functions or invariants of the classes.

* **Virtqueues** (`DescTable`, `VirtioRing`, `Virtqueue`, `VirtioDevice`). The free list
  threaded through the descriptor table and the chains in flight partition the table in
  every run. The two byte-level rings are first-in first-out channels across any number
  of wraps of their 16-bit indices. The device side follows section 2.6 of VIRTIO 1.1.
* **virtio-blk and virtio-net receive** (`VirtioBlk`, `VirtioNet`). Against a device that
  executes each published chain, runs of sector requests are runs of a plain array of
  sectors, below 2^23 sectors a request. Receive descriptors are each on the device's side exactly once after every call.
* **Device tree** (`Utf8`, `Fdt`, `FdtWalk`, `FdtTree`, `FdtNodes`, `FdtTrace`, `FdtMemory`,
  `FdtDevices`). The token loop over bytes computes the recursive fold over the tree those
  bytes flatten (section 5.4 of the Devicetree Specification), and is total on malformed
  input. Each node's record is read off its list of properties, and every field of the
  resulting boot information off the node that decides it.
* **Filesystem** (`Ramfs`, `RamForest`, `Paths`, `Vfs`). Nodes form a forest, each reached
  by one path; creating and removing change the resolution of exactly the named path.
* **Memory** (`ElfLoader`, `MemoryRuns`, `FrameOrder`, `Pmm`, `UefiBoot`, `Vmm`). The ELF
  loader on images in the ELF-64 layout, the bitmap frame allocator, the path from firmware
  memory map to frames, and address spaces.
* **Scheduler** (`Scheduler`). Round robin over a running thread and a ready queue: who is
  live after a run, and when each thread runs.
* **Drawing and checksum** (`Framebuffer`, `Compositor`, `Bresenham`, `Canvas`, `Checksum`). Z-ordered
  composition, Bresenham lines, clipping, the internet checksum (RFC 1071) and UDP echo.

Machine integers are subset types of `int`; wrapping, truncation and saturation are
written out where the code relies on them, as in a release build; a line's i32 arithmetic
is checked, as in a development build. Bitwise operators are
defined on binary digits in `Machine`. Each section the kernel runs under a lock is one
method call. Things outside the code (device timing, firmware answers, the place where an
allocation lands, CPU registers) are parameters.

Some promises hold only under a condition. Each has a lemma that gives it exactly and one
at an input where it fails:

* `alloc_chain` is all-or-nothing unless `n` exceeds 65535 and its low 16 bits pass the
  guard (`DescTable.AllocAllOrNothing`, `DescTable.FourDrained`).
* A read or write is the plain array's, asked for `n` sectors, always below 2^23 and above
  it only where the truncation does not show (`VirtioBlk.ReadExact`,
  `VirtioBlk.WriteExact`, `VirtioBlk.EightMillionSectors`).
* After a publication the reader still finds the next entry iff the window had room or the
  new entry equals the one it overwrites (`VirtioRing.PublishExact`,
  `VirtioRing.OneSlotLoses`).
* The memory map lists the tree's memory nodes iff there is one and none follows a first
  bank equal to the fallback's (`FdtMemory.ParsedBanks`, `FdtMemory.TwoBanksLoseOne`).
* A register is read back from its bytes iff each of its numbers has at most two cells or
  is 0 (`FdtNodes.RegExact`, `FdtNodes.ThreeCellsLost`).
* Without a console path the console is the tree's first UART iff that one is unlike the
  fallback's, or all are like it and the last equals the first
  (`FdtDevices.FirstUartExact`, `FdtDevices.SecondUartWins`).
* `Root::remove` makes its path unresolvable iff the path does not end in a slash
  (`Vfs.RemovedResolves`, `Vfs.MkdirSlashThenRemove`).
* The ELF loader writes only inside its page range iff each segment's file bytes lie
  inside it, which `filesz <= memsz` guarantees (`ElfLoader.NothingOutside`,
  `ElfLoader.LongFileSpills`).
* The frame pool is the whole pages of its bank iff rounding its start up does not wrap
  (`Pmm.PoolInsideBank`, `Pmm.TopPageWraps`).
* A mapping translates to base plus offset throughout iff its physical range fits in 64
  bits (`Vmm.MappingExact`, `Vmm.WrappedMapping`).
* The handoff lists the first eight maximal runs of conventional memory iff no descriptor
  behind the eighth run starts at its end (`UefiBoot.CollectExact`, `UefiBoot.TenthRejoins`);
  with up to eight runs every conventional address is listed except, where its run starts at
  0, the last one (`UefiBoot.ListedExactly`, `UefiBoot.WholeSpaceLosesLast`).
* After a UEFI boot every frame is conventional memory iff the largest bank's start rounds
  up without wrapping, or low memory is conventional (`UefiBoot.Boot`,
  `UefiBoot.TopKernelWraps`).
* A write through a handle panics iff it would end at or past 2^64 (`Vfs.File.Write`,
  `Vfs.WritePastEnd`).
* `clip` is the intersection with the screen iff no visible side is 2^31 or longer
  (`Canvas.ClipExact`, `Canvas.ClipLosesWide`).
* A line's arithmetic stays within i32 iff its two differences meet `LineFits`
  (`Bresenham.FitsExactly`); all lines of a length do iff it is at most 715827883
  (`Bresenham.SafeLength`, `Bresenham.ErrorPeak`).
* The u32 sum of `csum16` gives the checksum iff its lost carries cancel
  (`Checksum.U32Exact`, `Checksum.LongSumFails`).

Where code and documentation differ the code is followed: `poll_echo`'s comment says a
frame must carry our own MAC address, but nothing compares it. Cell counts that a device
tree node does not give are its parent's, where section 2.3.5 of the Devicetree
Specification has defaults.

## Model

| member | source | states |
|---|---|---|
| DescTable.RunPartition | kernel/src/drivers/virtio/queue.rs:104-151 | For every sequence of chain allocations, frees and driver edits of the abstract table, the free list and the in-flight chains stay duplicate-free, pairwise disjoint and together cover every descriptor |
| Virtqueues.Virtqueue.RunOps | kernel/src/drivers/virtio/queue.rs:104-151 | The same over the real fields: after every run of allocations, frees and driver edits that keep NEXT bits, descriptors, free head and free counter represent the run of the table, and each allocation returned that run's head |
| Virtqueues.Virtqueue.Perform | kernel/src/drivers/virtio/queue.rs:104-151 | One call of such a run is one step of the table |
| Virtqueues.Virtqueue.EditDesc | kernel/src/drivers/virtio/blk.rs:94-96 | Address, length and flags of one descriptor change, its link and all other descriptors do not, and the table stays represented |
| DescTable.AllocAllOrNothing | kernel/src/drivers/virtio/queue.rs:121-134 | Allocation succeeds iff enough descriptors are free; a failure changes nothing, exactly unless a count above 65535 passes the truncated comparison, in which case the whole free list is lost |
| DescTable.FourDrained | kernel/src/drivers/virtio/queue.rs:121-134 | Asked for 65536 descriptors, a queue of four returns none and has none left |
| DescTable.FreeUndoesAlloc | kernel/src/drivers/virtio/queue.rs:121-151 | Freeing a chain just allocated returns the same descriptors to the front of the free list, reversed, and leaves all other chains alone |
| DescTable.EditKeeps | kernel/src/drivers/virtio/blk.rs:94-113 | A driver that rewrites address, length and flags but not the link or the NEXT bit keeps the table's representation |
| DescTable.TakeOneKeeps | kernel/src/drivers/virtio/queue.rs:104-117 | Popping the head of the embedded free list keeps the representation and yields the first free descriptor |
| DescTable.LinkKeeps | kernel/src/drivers/virtio/queue.rs:127-132 | Linking a fresh descriptor behind the end of a chain extends that chain by one and keeps the representation |
| DescTable.ReleaseKeeps | kernel/src/drivers/virtio/queue.rs:137-151 | Pushing a chain's head on the free list shortens the chain by one; the NEXT flag and link read beforehand name the remaining chain |
| DescTable.ReturnedEnds | kernel/src/drivers/virtio/queue.rs:137-151 | Releasing a whole chain one descriptor at a time ends with the reversed chain in front of the old free list |
| DescTable.BlockBound | kernel/src/drivers/virtio/queue.rs:104-151 | A list of distinct descriptors is never longer than the table, so the free counter cannot overflow |
| DescTable.InitialInv | kernel/src/drivers/virtio/queue.rs:69-88 | The table built by `new` represents one free list of all descriptors in index order |
| Virtqueues.FreshTable | kernel/src/drivers/virtio/queue.rs:71-76 | The loop links every descriptor to its successor, the last to 0, all with the NEXT flag |
| Virtqueues.Virtqueue.constructor | kernel/src/drivers/virtio/queue.rs:69-88 | A new queue is valid: everything free, both rings empty |
| Virtqueues.Virtqueue.AllocDesc | kernel/src/drivers/virtio/queue.rs:104-117 | Takes the first free descriptor and zeroes exactly that one, or nothing iff none is free |
| Virtqueues.Virtqueue.AllocChain | kernel/src/drivers/virtio/queue.rs:121-134 | Refines the table operation: the first n free entries become a chain of blank descriptors, and no descriptor outside the free list is touched |
| Virtqueues.Virtqueue.ExtendChain | kernel/src/drivers/virtio/queue.rs:127-132 | One round of the loop moves the next free descriptor to the end of the chain, or fails iff the free list is empty |
| Virtqueues.Virtqueue.AppendDesc | kernel/src/drivers/virtio/queue.rs:129-130 | Only the former last descriptor changes: it gains the NEXT flag and the link |
| Virtqueues.Virtqueue.FreeChain | kernel/src/drivers/virtio/queue.rs:137-151 | Terminates and leaves the reversed chain in front of the old free list; descriptors outside the chain are untouched |
| Virtqueues.Virtqueue.ReleaseDesc | kernel/src/drivers/virtio/queue.rs:140-149 | One round moves one descriptor and yields the next of the chain, or none iff it was the last |
| Virtqueues.Virtqueue.MaskSlot | kernel/src/drivers/virtio/queue.rs:158-158 | The bit mask selects the index modulo the queue size |
| Virtqueues.Virtqueue.PushAvail | kernel/src/drivers/virtio/queue.rs:154-169 | The byte stores append the head to the log of published heads |
| Virtqueues.Virtqueue.ReadElem | kernel/src/drivers/virtio/queue.rs:178-192 | The eight bytes of a slot decode to the element stored there |
| Virtqueues.Virtqueue.PopUsed | kernel/src/drivers/virtio/queue.rs:173-195 | Returns the next unread element of the device's log, and nothing iff all have been read |
| VirtioRing.MaskedIndex | kernel/src/drivers/virtio/queue.rs:158-158 | Masking with size - 1 is the residue modulo size for every power-of-two size |
| VirtioRing.WrappedSlot | kernel/src/drivers/virtio/queue.rs:164-164 | Wrapping a count at 65536 does not change the slot it selects |
| VirtioRing.NearbySlots | kernel/src/drivers/virtio/queue.rs:154-169 | Two counts at most one queue length apart share a slot iff they are exactly one queue length apart |
| VirtioRing.PublishKeeps | kernel/src/drivers/virtio/queue.rs:154-169 | After any number of publications the ring holds the last `size` entries of the log |
| VirtioRing.PeekIsNext | kernel/src/drivers/virtio/queue.rs:173-195 | A reader finds exactly the next unread entry, and nothing iff it has caught up |
| VirtioRing.PutKeepsFifo | kernel/src/drivers/virtio/queue.rs:154-169 | Publishing into a window with room keeps first-in first-out order |
| VirtioRing.GetKeepsFifo | kernel/src/drivers/virtio/queue.rs:173-195 | Consuming keeps first-in first-out order |
| VirtioRing.OverrunLoses | kernel/src/drivers/virtio/queue.rs:154-169 | In a full window the reader finds the newest entry in the place of the oldest unread one |
| VirtioRing.PublishExact | kernel/src/drivers/virtio/queue.rs:154-169 | After a publication the reader still finds the next entry of the log iff the window had room or the new entry equals the one it overwrites |
| VirtioRing.OverrunRecovers | kernel/src/drivers/virtio/queue.rs:154-195 | In that second case the next read leaves a first-in first-out channel again |
| VirtioRing.OneSlotLoses | kernel/src/drivers/virtio/queue.rs:154-169 | In a ring of one slot, the second of two different heads hides the first |
| VirtioRing.RunIsFifo | kernel/src/drivers/virtio/queue.rs:154-195 | For every interleaving of producer and consumer that respects the window, the k-th entry consumed is the k-th published, across all index wraps |
| VirtioRing.EmptyIsFifo | kernel/src/drivers/virtio/queue.rs:77-87 | Zeroed rings are empty channels |
| VirtioDevice.DeviceSide.Take | kernel/src/drivers/virtio/queue.rs:154-169 | The device, with its own counter, receives exactly the next published head |
| VirtioDevice.DeviceSide.Collect | kernel/src/drivers/virtio/queue.rs:121-134 | Following NEXT flags from a head, the device sees the chain the driver allocated and stops |
| VirtioDevice.DeviceSide.Return | kernel/src/drivers/virtio/queue.rs:173-195 | The device's byte stores append one element to the log the driver pops from |
| VirtioDevice.ElemRoundTrip | kernel/src/drivers/virtio/queue.rs:180-192 | A used element survives its byte encoding |
| VirtioBlk.MovedIsTruncation | kernel/src/drivers/virtio/blk.rs:106-106 | The descriptor length is 512 times the count modulo 2^23; the count survives iff it is below 2^23 |
| VirtioBlk.ReadExact | kernel/src/drivers/virtio/blk.rs:53-58 | A read answers as the plain array of sectors does iff it asks for fewer than 2^23 sectors, or its buffer is shorter than the wrapped size, or (below 2^55 sectors) even the truncated read is past the medium |
| VirtioBlk.WriteExact | kernel/src/drivers/virtio/blk.rs:61-71 | A write does as the plain array does iff one of those holds or the medium already holds the bytes the truncation drops |
| VirtioBlk.RunIsPlain | kernel/src/drivers/virtio/blk.rs:53-137 | Runs of requests below 2^23 sectors are runs of the plain array |
| VirtioBlk.EightMillionSectors | kernel/src/drivers/virtio/blk.rs:106-106 | A read of 2^23 sectors reports success and moves nothing |
| VirtioBlk.SameWrite | kernel/src/drivers/virtio/blk.rs:61-71 | Writing a prefix of a buffer equals writing all of it iff the rest is on the medium already |
| VirtioBlk.ReadAfterWrite | kernel/src/drivers/virtio/blk.rs:53-71 | On the array of sectors, a read returns what was last written there and other sectors keep their contents |
| VirtioBlk.HeaderRoundTrip | kernel/src/drivers/virtio/blk.rs:80-84 | Type and sector survive the 16-byte header encoding |
| VirtioBlk.HeaderLayout | kernel/src/drivers/virtio/blk.rs:80-84 | The header is the little-endian type, four zero bytes and the little-endian sector |
| VirtioBlk.StoreIsReady | kernel/src/drivers/virtio/blk.rs:80-86 | After boxing header and status the device reads back type and sector, and no other byte of memory changed |
| VirtioBlk.ExecutePerforms | kernel/src/drivers/virtio/blk.rs:91-113 | A device that interprets the three descriptors performs the transfer that was asked for, in the right direction |
| VirtioBlk.PerformServes | kernel/src/drivers/virtio/blk.rs:73-137 | That transfer has the effect of a sector array operation on memory, medium and status, and touches nothing else |
| VirtioBlk.RequestServed | kernel/src/drivers/virtio/blk.rs:73-137 | Header, chain and device together serve the request as the sector array does, both directions and the out-of-range case |
| VirtioBlk.BlkDevice.Service | kernel/src/drivers/virtio/blk.rs:115-123 | The device takes one published chain, executes its descriptors and returns its head |
| VirtioBlk.HeadReturned | kernel/src/drivers/virtio/blk.rs:122-123 | When the device returns the head it was given, ids and published heads still agree position by position |
| VirtioBlk.VirtioBlk.constructor | kernel/src/drivers/virtio/blk.rs:141-181 | After init nothing is outstanding and every descriptor is free |
| VirtioBlk.VirtioBlk.FillChain | kernel/src/drivers/virtio/blk.rs:91-113 | Walking the chain by its links fills header, data and status descriptors in chain order and keeps the links |
| VirtioBlk.VirtioBlk.Submit | kernel/src/drivers/virtio/blk.rs:88-116 | One three-descriptor chain describing the request is published, or nothing iff the queue has fewer than three descriptors |
| VirtioBlk.VirtioBlk.WaitUsed | kernel/src/drivers/virtio/blk.rs:122-123 | However long the device takes, the wait ends with an element whose id is the request's head |
| VirtioBlk.VirtioBlk.Finish | kernel/src/drivers/virtio/blk.rs:122-125 | All descriptors are free again and both rings drained |
| VirtioBlk.VirtioBlk.StoreRequest | kernel/src/drivers/virtio/blk.rs:80-86 | Writes the two boxes and nothing else |
| VirtioBlk.VirtioBlk.Transact | kernel/src/drivers/virtio/blk.rs:88-125 | The device executed exactly the chain built for this request, and the queue is idle again |
| VirtioBlk.VirtioBlk.DoRequest | kernel/src/drivers/virtio/blk.rs:73-137 | One request has the array's effect and result and consumes one element; the queue is idle afterwards, with every popped id the head it answers |
| VirtioBlk.VirtioBlk.ReadSectors | kernel/src/drivers/virtio/blk.rs:53-58 | Short buffers are refused; otherwise the buffer holds the sectors, memory outside the request and the medium are unchanged, and out-of-range reads fail |
| VirtioBlk.VirtioBlk.WriteSectors | kernel/src/drivers/virtio/blk.rs:61-71 | Short buffers are refused; otherwise the sectors hold the buffer's bytes, out-of-range writes fail without effect, and memory outside the two boxes and the copy is unchanged |
| VirtioBlk.VirtioBlk.RunOne | kernel/src/drivers/virtio/blk.rs:53-137 | Each request is one step of the array of sectors as driven, for every placement of its buffers and every device delay |
| VirtioBlk.VirtioBlk.Run | kernel/src/drivers/virtio/blk.rs:53-137 | Every run of reads and writes, one at a time, is a run of the array of sectors as driven, and of the plain array when each asks for fewer than 2^23; afterwards all descriptors are free and every element ever popped carries the head published at its position |
| VirtioNet.OwnedFacts | kernel/src/drivers/virtio/net.rs:97-118 | If each descriptor is in one of three places once, the places hold `size` entries and none is both held by the device and returned |
| VirtioNet.TakeMoves | kernel/src/drivers/virtio/net.rs:162-165 | The device taking a head keeps single ownership |
| VirtioNet.ReturnMoves | kernel/src/drivers/virtio/net.rs:97-99 | The device returning any head it holds, in any order, keeps single ownership |
| VirtioNet.RecycleMoves | kernel/src/drivers/virtio/net.rs:97-118 | Consuming and republishing a head keeps single ownership |
| VirtioNet.FillDescs | kernel/src/drivers/virtio/net.rs:142-154 | Descriptor i describes buffer i, is device-writable and is a chain of its own |
| VirtioNet.Prefill | kernel/src/drivers/virtio/net.rs:142-165 | Every descriptor is published once, in index order |
| VirtioNet.RxPath.constructor | kernel/src/drivers/virtio/net.rs:121-165 | After init all receive descriptors are on the device's side exactly once |
| VirtioNet.RxPath.DeviceTake | kernel/src/drivers/virtio/net.rs:162-165 | The device taking a head keeps the receive invariant |
| VirtioNet.RxPath.DeviceDeliver | kernel/src/drivers/virtio/net.rs:97-106 | Delivering a frame into any held buffer keeps every undelivered frame intact |
| VirtioNet.RxPath.Recv | kernel/src/drivers/virtio/net.rs:97-118 | Returns the frames in the order they were delivered, cut to the caller's buffer, and nothing iff none is left; descriptor i still points at buffer i and all are owned once |
| VirtioNet.RxPath.PopReturned | kernel/src/drivers/virtio/net.rs:98-99 | The driver holds exactly the descriptor popped, whose id is in range |
| VirtioNet.RxPath.Republish | kernel/src/drivers/virtio/net.rs:107-115 | Re-arming the descriptor gives it back to the device and restores the invariant |
| VirtioNet.RxPath.IndexDistance | kernel/src/drivers/virtio/net.rs:97-118 | The published index is `size` ahead of the consumed one, modulo 65536; every entry the device has not taken is still in its slot, so none was overwritten |
| VirtioNet.CopyOut | kernel/src/drivers/virtio/net.rs:99-106 | The bytes copied are the frame behind the header, cut to the caller's buffer |
| Fdt.MaskAligns | kernel/src/hal/dtb.rs:211-211 | The alignment mask rounds up to the next multiple of four |
| Fdt.Be32Spells | kernel/src/hal/dtb.rs:49-60 | The 32-bit reader yields the number its four bytes spell, most significant first |
| Fdt.Be64Spells | kernel/src/hal/dtb.rs:62-77 | The 64-bit reader yields the number its eight bytes spell |
| Utf8.EncodingValid | kernel/src/hal/dtb.rs:86-86 | The UTF-8 form of any code points is accepted as text |
| Utf8.ValidEncodes | kernel/src/hal/dtb.rs:86-86 | Whatever is accepted as text is the UTF-8 form of some code points |
| Fdt.ContainsExact | kernel/src/hal/dtb.rs:573-575 | The substring test finds exactly the strings that stand somewhere in the other |
| Fdt.PathMatchExact | kernel/src/hal/dtb.rs:559-576 | A path selects a node iff its last component before the first colon occurs in the node's name, or the name before its unit address occurs in the component, or the component is a serial alias and the name mentions serial |
| FdtWalk.Skip | kernel/src/hal/dtb.rs:213-242 | Skipping a subtree never moves the cursor backwards, on any bytes |
| FdtWalk.Step | kernel/src/hal/dtb.rs:200-309 | On any bytes, one token moves the cursor by at least four and keeps the depth below the limit |
| FdtWalk.AlignUp4 | kernel/src/hal/dtb.rs:211-211 | Computes the next multiple of four |
| FdtWalk.SkipSubtree | kernel/src/hal/dtb.rs:213-242 | The counting loop terminates on any bytes and stops where the recursive skip does |
| FdtWalk.WalkBlock | kernel/src/hal/dtb.rs:184-310 | The in-place loop terminates without out-of-range access on any structure and strings block and computes the iterated step |
| FdtWalk.OneToken | kernel/src/hal/dtb.rs:200-309 | One round on the per-depth records, with its real property dispatch, is one step; it asks for no more exactly where the walk returns |
| FdtTree.MeetsNode | kernel/src/hal/dtb.rs:208-211 | At a flattened node the readers find its token, name and body, and its END token behind the body |
| FdtTree.MeetsProp | kernel/src/hal/dtb.rs:275-304 | At a flattened property the readers find its token, length, name offset and value, and the rest of the body behind the padding |
| FdtTree.SkipTree | kernel/src/hal/dtb.rs:212-243 | Skipping passes over a whole flattened node to just behind its END token, whatever it contains |
| FdtTree.SkipBody | kernel/src/hal/dtb.rs:212-243 | Skipping passes over a whole flattened body |
| FdtTree.StepNode | kernel/src/hal/dtb.rs:208-256 | A node above the depth limit is opened with its name; one at the limit is passed over and contributes nothing |
| FdtTree.StepProp | kernel/src/hal/dtb.rs:275-304 | A property token applies that property to the open node |
| FdtTree.WalkTree | kernel/src/hal/dtb.rs:184-310 | Walking a node's bytes has the effect of its recursive fold and leaves its ancestors' records alone |
| FdtTree.WalkBody | kernel/src/hal/dtb.rs:184-310 | Walking a body's bytes has the effect of folding its properties and subnodes in order |
| FdtTree.WalkIsFold | kernel/src/hal/dtb.rs:184-310 | Walking a flattened tree, with NOP tokens anywhere, changes the boot information exactly as the recursive fold of the tree |
| FdtNodes.LastIs | kernel/src/hal/dtb.rs:312-393 | The value that counts for a field is that of the last property of its name that is long enough, or readable text |
| FdtNodes.RecordEmpty | kernel/src/hal/dtb.rs:244-253 | A node starts out with its parent's cell counts and nothing else |
| FdtNodes.RecordSnoc | kernel/src/hal/dtb.rs:312-409 | Applying one more property gives the record read off the longer list: both cell counts are the last well-formed property of their name or else the parent's, and register, clock, compatible string and framebuffer come from the last property that gives them |
| FdtNodes.ReadsNumber | kernel/src/hal/dtb.rs:411-417 | One and two cells are read as the number they spell, more cells as 0 |
| FdtNodes.RegExact | kernel/src/hal/dtb.rs:341-357 | A register written big-endian in the parent's cell counts is read back as its base and size iff each has at most two cells or is 0 |
| FdtNodes.ThreeCellsLost | kernel/src/hal/dtb.rs:411-417 | An address written in three cells is read as 0 |
| FdtTrace.FoldIsReplay | kernel/src/hal/dtb.rs:184-310 | The fold of a tree depends only on its events: nodes open, show properties, and close with the record read off all they have shown, below a parent's cell counts so far |
| FdtTrace.WalkTraced | kernel/src/hal/dtb.rs:184-310 | The in-place walk of a block that holds a tree replays that tree's events |
| FdtTrace.TraceIsWhole | kernel/src/hal/dtb.rs:257-274 | When properties precede subnodes, each node closes with all its properties and its subnodes inherit its complete cell counts |
| FdtMemory.LeaveBanks | kernel/src/hal/dtb.rs:429-444 | Closing a node changes the memory map only for memory nodes with a register |
| FdtMemory.ReplayBanks | kernel/src/hal/dtb.rs:429-444 | The memory map after any events is the sequence of the closed memory nodes' registers, applied one by one |
| FdtMemory.BanksListed | kernel/src/hal/dtb.rs:429-444 | Without a replacement the map is the first eight non-empty memory nodes |
| FdtMemory.BanksReplaced | kernel/src/hal/dtb.rs:433-441 | After a replacement the map never again lists the memory nodes |
| FdtMemory.BanksExact | kernel/src/hal/dtb.rs:429-444 | The map is the first eight non-empty memory nodes iff no memory node follows nodes whose only bank equals the fallback |
| FdtMemory.ParsedBanks | kernel/src/hal/dtb.rs:108-160 | Starting from the fallback, the walk leaves the first eight non-empty memory nodes of the tree iff there is a memory node and no such replacement |
| FdtMemory.TwoBanksLoseOne | kernel/src/hal/dtb.rs:429-444 | A tree with memory nodes at 1 GiB (like the fallback) and 2 GiB leaves only the second |
| FdtMemory.FallbackBankLost | kernel/src/hal/dtb.rs:433-441 | Any bank that follows one like the fallback replaces it |
| FdtDevices.OneKind | kernel/src/hal/dtb.rs:446-549 | No compatible string names two kinds of device |
| FdtDevices.UartKinds | kernel/src/hal/dtb.rs:526-549 | A UART is recognised iff its compatible string is in one of the three lists, with that list's kind |
| FdtDevices.LeaveDevices | kernel/src/hal/dtb.rs:446-524 | A closing node sets the interrupt controller, timer, console or framebuffer exactly when it is such a device, to what its record says, and leaves the other fields alone |
| FdtDevices.ContextIs | kernel/src/hal/dtb.rs:363-370 | The console path is the last readable one seen while a node called chosen was open and none had closed since |
| FdtDevices.DeciderIsLast | kernel/src/hal/dtb.rs:446-524 | The deciding node of a device is the last of its kind to close, and there is none iff the tree has none |
| FdtDevices.ReplayDescribes | kernel/src/hal/dtb.rs:419-524 | After any events every field of the boot information is that of its deciding node, or as it was at first |
| FdtDevices.ParsedInfo | kernel/src/hal/dtb.rs:108-160 | Starting from the fallback, the in-place walk of a block that holds a tree returns the boot information read off the tree |
| FdtDevices.WalkMeans | kernel/src/hal/dtb.rs:184-310 | With properties first, it is read off each node's complete properties and its parent's complete cell counts |
| FdtDevices.SettledSnoc | kernel/src/hal/dtb.rs:488-507 | A further UART without a path is taken iff the console so far is like the fallback's |
| FdtDevices.FirstUartExact | kernel/src/hal/dtb.rs:496-507 | Without a console path the console is the first UART iff that one is not like the fallback's, or every UART is and the last equals the first |
| FdtDevices.SecondUartWins | kernel/src/hal/dtb.rs:496-507 | A tree with a PL011 at the fallback's address and another behind it gets the second as its console |
| Ramfs.RamNode.ReadAt | kernel/src/fs/ramfs.rs:63-75 | Reads as many bytes as are asked for and exist behind the offset, each the byte at its position; directories fail |
| Ramfs.RamNode.WriteAt | kernel/src/fs/ramfs.rs:77-89 | Panics iff the end of the write does not fit a 64-bit usize; otherwise the file holds the buffer at the offset, zeros in any gap and its old bytes elsewhere; directories fail unchanged |
| Ramfs.RamNode.Create | kernel/src/fs/ramfs.rs:105-133 | Adds one fresh node under a free name of a directory; every other case fails unchanged with its own error |
| Ramfs.RamNode.Remove | kernel/src/fs/ramfs.rs:135-150 | NotADirectory iff the node is a file, NotFound iff the directory lacks the name, NotEmpty iff the entry is a directory with an entry, and then nothing changes; otherwise exactly that entry is removed |
| Ramfs.WriteThenRead | kernel/src/fs/ramfs.rs:63-89 | A write is read back, at any offset, also past the end |
| Ramfs.WriteAtEnd | kernel/src/fs/ramfs.rs:77-89 | Writing at the end of a file appends |
| RamForest.ResolveSnoc | kernel/src/fs/vfs.rs:90-95 | Resolving one more component is resolving the prefix and looking the component up |
| RamForest.ResolveErrors | kernel/src/fs/vfs.rs:90-95 | NotFound iff some prefix leads to a directory without the next component, NotADirectory iff some proper prefix leads to a file, and no other error |
| RamForest.UniquePath | kernel/src/fs/ramfs.rs:105-150 | In a forest each node is reached by at most one path from the root |
| RamForest.CreateKeepsForest | kernel/src/fs/ramfs.rs:105-133 | A new entry keeps the nodes a forest |
| RamForest.RemoveKeepsForest | kernel/src/fs/ramfs.rs:135-150 | Removing an entry keeps the nodes a forest |
| RamForest.CreateEffect | kernel/src/fs/ramfs.rs:105-133 | A new entry makes its own path resolve to the new node and changes the resolution of no path that does not pass through it |
| RamForest.RemoveEffect | kernel/src/fs/ramfs.rs:135-150 | A removal makes exactly the removed path unresolvable; paths through it led nowhere before and still do |
| RamForest.WriteKeepsForest | kernel/src/fs/ramfs.rs:77-89 | Writing a file keeps the nodes a forest |
| RamForest.WriteEffect | kernel/src/fs/ramfs.rs:77-89 | Writing a file changes the resolution of no path |
| Paths.ComponentsJoin | kernel/src/fs/vfs.rs:90-90 | Joining two paths with a slash concatenates their components |
| Paths.ComponentsClean | kernel/src/fs/vfs.rs:90-90 | Components are non-empty and slash-free |
| Paths.RedundantSlashes | kernel/src/fs/vfs.rs:85-90 | A leading, trailing or doubled slash does not change the components |
| Paths.ParentComponents | kernel/src/fs/vfs.rs:140-146 | The parent's components followed by the last name are the path's; the last name is empty iff the path is empty or ends in a slash |
| Vfs.SlashesIrrelevant | kernel/src/fs/vfs.rs:81-97 | Redundant and trailing slashes never change what a path with a component resolves to |
| Vfs.CreateByPath | kernel/src/fs/vfs.rs:114-124 | When a path is not found but its parent is, the parent is a directory and the last name is non-empty, slash-free and unused |
| Vfs.CreatedResolves | kernel/src/fs/vfs.rs:114-124 | After creation that same path resolves to the new node and unrelated paths resolve as before |
| Vfs.RemovedElsewhere | kernel/src/fs/vfs.rs:133-137 | A removal changes the resolution of no path that does not pass through the removed entry |
| Vfs.RemovedResolves | kernel/src/fs/vfs.rs:133-137 | After a successful removal the path given is unresolvable iff it does not end in a slash; all other paths keep their resolution |
| Vfs.MkdirSlashThenRemove | kernel/src/shell/commands.rs:233-250 | The slash case happens: after `mkdir /`, removing "/" succeeds and "/" still resolves to the root |
| Vfs.WrittenResolves | kernel/src/fs/vfs.rs:49-59 | Writing through an open handle changes what no path resolves to |
| Vfs.Root.Resolve | kernel/src/fs/vfs.rs:81-97 | The loop over components finds what resolving them one after another finds, with the same errors |
| Vfs.Root.CreateIn | kernel/src/fs/vfs.rs:104-111 | Creating under any node, also one held only by a handle, keeps the filesystem a rooted forest |
| Vfs.Root.RemoveIn | kernel/src/fs/ramfs.rs:135-150 | Removing under any node keeps the filesystem a rooted forest, succeeds iff the entry is a file or an empty directory, and otherwise fails with the error of its case, each as an iff |
| Vfs.Root.Open | kernel/src/fs/vfs.rs:114-130 | Opens what the path resolves to; with CREATE a missing path is created under a proper name and then resolves to the opened node; every other case changes nothing |
| Vfs.Root.CreateMissing | kernel/src/fs/vfs.rs:118-122 | A missing path is created under its parent, with a proper name, and then resolves to the new node; a missing parent leaves everything unchanged |
| Vfs.Root.Remove | kernel/src/fs/vfs.rs:133-137 | Ok iff the parent has the last name as a file or empty directory; NotEmpty iff it is a directory with an entry; NotFound iff the parent is not found or lacks the name; NotADirectory iff the parent's path crosses a file or the parent is one. A failure changes nothing; after a success the path resolves iff it ends in a slash, and every path not through it resolves as before |
| Vfs.File.Read | kernel/src/fs/vfs.rs:40-47 | Reads from the handle's offset and advances it by what was read |
| Vfs.File.Write | kernel/src/fs/vfs.rs:49-59 | Panics iff that write does; otherwise writes at the offset and leaves it behind the written bytes; appending leaves the old bytes followed by the buffer |
| Vfs.WritePastEnd | kernel/src/fs/vfs.rs:49-63 | Moved to offset 2^64 - 1, a handle panics on writing one byte |
| Vfs.ReadAll | kernel/src/fs/vfs.rs:154-165 | Reading in chunks of 256 returns the file's whole contents, or the error of resolving or reading |
| ElfLoader.EhdrRoundTrip | efi-stub/src/main.rs:365-382 | A header in Elf64_Ehdr layout is read back field by field |
| ElfLoader.PhdrRoundTrip | efi-stub/src/main.rs:384-395 | A program header in Elf64_Phdr layout is read back from wherever it stands |
| ElfLoader.LaidOutReads | efi-stub/src/main.rs:481-495 | From an image built from a header and a table of program headers the loader reads that header and that table |
| ElfLoader.RangeCovers | efi-stub/src/main.rs:494-506 | The page range contains every loadable segment |
| ElfLoader.RangeAligned | efi-stub/src/main.rs:500-506 | Both ends of the range are page-aligned |
| ElfLoader.RangeExact | efi-stub/src/main.rs:490-509 | The first pass yields the smallest run of whole pages that holds every segment, and fails iff no segment occupies memory or one ends in the last page of the address space |
| ElfLoader.LoadedByteUnique | efi-stub/src/main.rs:519-536 | With disjoint segments each byte is the file byte of the one segment covering it, or zero if none does |
| ElfLoader.CoveredIff | efi-stub/src/main.rs:519-536 | An address is written by the second pass iff some segment has a file byte for it |
| ElfLoader.NothingOutside | efi-stub/src/main.rs:494-536 | Nothing outside the page range is written iff each segment's file bytes lie inside the range |
| ElfLoader.LongFileSpills | efi-stub/src/main.rs:494-536 | A segment of one byte of memory and 4097 bytes of file writes behind its page range |
| ElfLoader.WellFormedStaysInside | efi-stub/src/main.rs:494-536 | Segments with filesz <= memsz never write outside the range |
| ElfLoader.AlignDown | efi-stub/src/main.rs:465-467 | The mask rounds down to a page |
| ElfLoader.AlignUp | efi-stub/src/main.rs:469-471 | Rounds up to a page, or fails on overflow |
| ElfLoader.FindRange | efi-stub/src/main.rs:492-507 | The first pass finds the range of all segments, or fails iff a header is unreadable, an end overflows or nothing is loadable |
| ElfLoader.CopySegments | efi-stub/src/main.rs:519-536 | The second pass writes the file byte of the last covering segment at every covered address and nothing else, and fails iff a segment lies outside the image |
| ElfLoader.Zero | efi-stub/src/main.rs:518-518 | Zeroes the range and nothing else |
| ElfLoader.LoadKernelElf | efi-stub/src/main.rs:481-538 | Accepts exactly the well-headed images; then every byte of the range is its segment's file byte or zero, and on every outcome nothing but the range and the segments' file bytes is written |
| ElfLoader.LoadWellFormed | efi-stub/src/main.rs:481-538 | An image built from a header, segments with filesz <= memsz and no shared address, and their contents is accepted iff the header is right, the segments fit and the pages are granted; then each segment's contents are at its physical address, the rest of the smallest page range is zero, nothing outside is written, and the entry is the header's |
| FrameOrder.TakeFirst | kernel/src/mm/pmm.rs:96-107 | Taking the first free frame after the hint leaves the rest of the cyclic order unchanged |
| FrameOrder.AllocRunExact | kernel/src/mm/pmm.rs:90-109 | From a state with k free frames exactly the next k allocations succeed, in cyclic order from the hint |
| FrameOrder.FreeCount | kernel/src/mm/pmm.rs:141-143 | The cyclic order lists every free frame, so its length is the number of frames minus the live ones |
| Pmm.Largest | kernel/src/hal/boot_info.rs:215-217 | Picks a bank of the map that no other exceeds in size |
| Pmm.LargestIsLast | kernel/src/hal/boot_info.rs:215-217 | Among banks of equal size the last is picked |
| Pmm.PoolInsideBank | kernel/src/mm/pmm.rs:63-77 | The pool starts less than a page above the kernel's end when that is in the bank, else above the bank's start, stays in the bank, and has 65536 frames or ends less than a page below the bank's end, iff rounding up does not wrap; otherwise it is 65536 frames at address 0 |
| Pmm.TopPageWraps | kernel/src/mm/pmm.rs:71-77 | A bank that starts in the top page gives a pool of 65536 frames at address 0 |
| Pmm.SetBit | kernel/src/mm/pmm.rs:102-102 | Or-ing a one-hot word sets one frame's bit and no other, within 64 bits |
| Pmm.ClearBit | kernel/src/mm/pmm.rs:131-131 | And-not with a one-hot word clears one frame's bit and no other |
| Pmm.Pool | kernel/src/mm/pmm.rs:63-77 | The mask arithmetic computes the pool's base and size |
| Pmm.Pmm.Init | kernel/src/mm/pmm.rs:55-86 | All frames of the largest bank's pool are free and the counters agree; the pool is the whole pages of that bank iff rounding up does not wrap |
| Pmm.Pmm.AllocFrame | kernel/src/mm/pmm.rs:90-109 | Hands out the first free frame in cyclic order, which was not live; fails iff all frames are live |
| Pmm.Pmm.Claim | kernel/src/mm/pmm.rs:102-104 | Marks one frame, moves the hint behind it, keeps the counter equal to the clear bits |
| Pmm.Pmm.TestFrame | kernel/src/mm/pmm.rs:98-101 | The bit test answers whether the frame is live |
| Pmm.Pmm.FreeFrame | kernel/src/mm/pmm.rs:112-133 | Frees exactly the live frame at that address; double, foreign and unaligned frees change nothing |
| Pmm.Pmm.Run | kernel/src/mm/pmm.rs:90-133 | Every run of allocations and frees is the run of the set of live frames, and every address handed out is a frame of the pool |
| Pmm.LiveExactly | kernel/src/mm/pmm.rs:90-133 | After any run a frame is live iff it was live before or handed out in it, and has not been freed since |
| Pmm.Pmm.InitAndRun | kernel/src/mm/pmm.rs:55-133 | From init on, unless rounding wraps, every frame of every run lies wholly inside the largest bank, above the kernel image when that is in the bank |
| MemoryRuns.DescriptorRoundTrip | efi-stub/src/main.rs:318-327 | A descriptor in EFI_MEMORY_DESCRIPTOR layout is read back, whatever its ignored fields hold |
| MemoryRuns.MapReads | efi-stub/src/main.rs:734-745 | From a map built from descriptors a fixed size apart the stub reads those descriptors |
| MemoryRuns.RunsApart | efi-stub/src/main.rs:566-582 | A descriptor not adjacent to the one before it is a maximal run of its own |
| MemoryRuns.RunsExtend | efi-stub/src/main.rs:571-576 | An adjacent one makes the last run longer by its size |
| MemoryRuns.RunsCover | efi-stub/src/main.rs:566-582 | Every address of every descriptor is in a run |
| UefiBoot.PushSound | efi-stub/src/main.rs:566-582 | Pushing a conventional descriptor, coalesced, appended or dropped at the cap, never lists other memory |
| UefiBoot.Coalesced | efi-stub/src/main.rs:571-576 | Two adjacent sound regions coalesce to a sound one, even where the size saturates |
| UefiBoot.Handoff.PushMemoryRegion | efi-stub/src/main.rs:566-582 | The in-place update on the used part of the array is the coalescing push whose results are the runs below |
| UefiBoot.CollectSound | efi-stub/src/main.rs:734-745 | After all descriptors, the regions cover only conventional memory, and are empty iff no non-empty conventional descriptor exists |
| UefiBoot.CollectRuns | efi-stub/src/main.rs:734-745 | Up to eight runs, the regions collected are exactly the maximal runs of adjacent non-empty conventional descriptors; beyond that the first eight, the last of them longer iff its end is met again |
| UefiBoot.CollectExact | efi-stub/src/main.rs:734-745 | For every map without overflow the regions are the first eight maximal runs iff no descriptor behind the eighth begins where it ends |
| UefiBoot.TenthRejoins | efi-stub/src/main.rs:566-582 | Nine separate runs and a tenth descriptor at the end of the eighth: the eighth region grows |
| UefiBoot.ListedExactly | efi-stub/src/main.rs:734-745 | With at most eight runs an address is listed iff it is conventional, but for the last address of the space when its run starts at 0 |
| UefiBoot.WholeSpaceLosesLast | efi-stub/src/main.rs:741-741 | One descriptor of the whole address space is listed without its last byte |
| UefiBoot.BuildHandoff | efi-stub/src/main.rs:734-756 | The loop collects all descriptors of the firmware's byte map, and uses the fallback iff it collected none |
| UefiBoot.ToMemoryMap | kernel/src/hal/boot_info.rs:285-289 | The memory map is the non-empty regions among the first eight, in order |
| UefiBoot.BankConventional | kernel/src/mm/pmm.rs:55-75 | The pool of the largest bank lies wholly in conventional memory iff rounding its start up does not wrap, or the first 256 MiB are conventional anyway |
| UefiBoot.Boot | efi-stub/src/main.rs:734-756 | From firmware map through handoff and bank choice, for every map with a conventional descriptor and no address overflow: the banks are the first eight runs, the pool is the whole pages of the largest, and the pool is conventional memory, each under its exact condition |
| UefiBoot.TopKernelWraps | kernel/src/mm/pmm.rs:66-71 | A conventional descriptor of 4 GiB up to the last byte, with the kernel ending in the last page, gives a pool that is not conventional memory |
| UefiBoot.RunAfterBoot | kernel/src/mm/pmm.rs:90-133 | In every run of allocations and frees each frame returned is conventional memory from end to end, and the run is the one of the set of live frames |
| Vmm.OverlapMeansShared | kernel/src/mm/vmm.rs:123-125 | The overlap test holds iff two ranges share an address |
| Vmm.SearchUnique | kernel/src/mm/vmm.rs:70-78 | Among disjoint mappings at most one contains an address |
| Vmm.MappingExact | kernel/src/mm/vmm.rs:70-78 | All addresses of a mapping translate to base plus offset iff its physical range fits in 64 bits |
| Vmm.WrappedMapping | kernel/src/mm/vmm.rs:47-78 | A two-page mapping whose physical range passes the end of memory is accepted, and its second page translates to address 0 |
| Vmm.WantedExact | kernel/src/mm/vmm.rs:97-121 | Which requests are refused with which error, as iffs; a request that passes maps the addresses asked for, rounded up to whole pages |
| Vmm.InsertKeeps | kernel/src/mm/vmm.rs:47-68 | A mapping that overlaps none keeps all mappings disjoint, and unmapping it restores the previous ones |
| Vmm.InsertSearch | kernel/src/mm/vmm.rs:47-64 | A new mapping adds exactly its own range to the translation |
| Vmm.RemoveKeeps | kernel/src/mm/vmm.rs:66-68 | Unmapping takes exactly its own range out of the translation |
| Vmm.AddressSpace.Map | kernel/src/mm/vmm.rs:47-95 | Succeeds iff the request is well-formed, overlaps nothing and a root frame exists or can be had; a failure changes neither mappings nor live frames, and the pool itself never changes |
| Vmm.AddressSpace.FindClash | kernel/src/mm/vmm.rs:53-59 | The loop finds an overlap iff there is one |
| Vmm.AddressSpace.Unmap | kernel/src/mm/vmm.rs:66-68 | Removes and returns exactly the mapping that starts there |
| Vmm.AddressSpace.Translate | kernel/src/mm/vmm.rs:70-78 | Looking only at the nearest mapping at or below agrees with searching all mappings, at every address |
| Vmm.AddressSpace.Predecessor | kernel/src/mm/vmm.rs:71-71 | Finds the greatest start at or below an address, or none iff there is none |
| Vmm.CheckRequest | kernel/src/mm/vmm.rs:47-51 | The checks run in the code's order and report its errors |
| Scheduler.StepKeepsInv | kernel/src/proc/scheduler.rs:39-136 | Each event keeps every live thread in one place with only the current one Running |
| Scheduler.RunKeepsInv | kernel/src/proc/scheduler.rs:39-136 | So does every run after init |
| Scheduler.WaitingMovesUp | kernel/src/proc/scheduler.rs:61-88 | A waiting thread moves up one place per switch, unchanged, whatever is spawned meanwhile |
| Scheduler.TurnComes | kernel/src/proc/scheduler.rs:61-88 | The thread at position k runs after exactly k + 1 switches, with the context it has |
| Scheduler.ResumedAsSaved | kernel/src/proc/scheduler.rs:61-88 | A thread that yields resumes with the registers it had, after as many switches as there were threads before it |
| Scheduler.SpawnRuns | kernel/src/proc/scheduler.rs:46-52 | A thread spawned while n threads are ready runs after exactly n + 1 switches, from its entry context |
| Scheduler.StepLive | kernel/src/proc/scheduler.rs:39-136 | One event makes live exactly the thread it spawns and ends exactly the thread that exits |
| Scheduler.LiveExactly | kernel/src/proc/scheduler.rs:39-136 | After any run a thread is live iff it was live before or spawned in it, and did not exit in it |
| Scheduler.NumberedInOrder | kernel/src/proc/thread.rs:37-41 | Threads are numbered in the order they are spawned, without gaps |
| Scheduler.NeverStuck | kernel/src/proc/scheduler.rs:110-136 | While the boot thread has not exited, no run reaches the panic in `exit_current` |
| Scheduler.SchedState.Init | kernel/src/proc/scheduler.rs:39-43 | The boot thread is running and the ready queue is empty |
| Scheduler.SchedState.SpawnThread | kernel/src/proc/scheduler.rs:46-52 | Refines the spawn step; exactly the new thread becomes live |
| Scheduler.SchedState.YieldNow | kernel/src/proc/scheduler.rs:61-88 | Refines the yield step: registers saved into the thread now at the back, loaded from the new current one |
| Scheduler.SchedState.ExitCurrent | kernel/src/proc/scheduler.rs:110-136 | Refines the exit step, after which exactly the exiting thread is gone, and panics iff no thread is ready |
| Scheduler.SchedState.Snapshot | kernel/src/proc/scheduler.rs:139-149 | Lists every live thread once, the running one first |
| Framebuffers.ChannelBytes | kernel/src/display/framebuffer.rs:133-140 | As a little-endian word a Bgra8 pixel is alpha, red, green, blue from the top byte down, and an Rgba8 pixel alpha, blue, green, red |
| Framebuffers.OffInside | kernel/src/display/framebuffer.rs:143-150 | A visible pixel's bytes lie inside the buffer |
| Framebuffers.OffApart | kernel/src/display/framebuffer.rs:143-150 | Different pixels occupy different bytes |
| Framebuffers.Framebuffer.Store | kernel/src/display/framebuffer.rs:147-149 | Changes one pixel, no other, and no padding |
| Framebuffers.Framebuffer.PutPixel | kernel/src/display/framebuffer.rs:143-150 | Sets the pixel to the encoded colour; outside the screen nothing changes |
| Framebuffers.Framebuffer.Clear | kernel/src/display/framebuffer.rs:153-167 | Every pixel becomes the encoded colour and stride padding is untouched |
| Framebuffers.Framebuffer.FillRect | kernel/src/display/framebuffer.rs:170-183 | The row loops, with their u32-wrapped length and slice indices, panic iff a visible row would run backwards; otherwise exactly the pixels between the u32 ends become the encoded colour |
| Framebuffers.Framebuffer.FillRun | kernel/src/display/framebuffer.rs:177-181 | A run of pixels panics iff it reaches behind the buffer; a visible run colours exactly its pixels |
| Framebuffers.BackwardRow | kernel/src/display/framebuffer.rs:177-178 | A row whose end lies left of its start has a wrapped length that reaches behind any buffer |
| Framebuffers.Poked | kernel/src/display/framebuffer.rs:179-180 | Overwriting one pixel's bytes changes that pixel, no other, and no padding |
| Framebuffers.FillExact | kernel/src/display/framebuffer.rs:170-183 | When the ends fit u32 those are the pixels of the rectangle, and the panic means it starts right of the screen on a visible row |
| Compositor.SortSorts | kernel/src/display/compositor.rs:56-56 | The stable sort is a sorted permutation |
| Compositor.InsertPaints | kernel/src/display/compositor.rs:56-63 | Adding a layer to a sorted stack changes a pixel iff the layer shows there and nothing above it does |
| Compositor.TopOfIsTop | kernel/src/display/compositor.rs:52-65 | The winning layer is the one with the highest z, the latest among equals, and there is none iff no layer shows |
| Compositor.PaintShowsTop | kernel/src/display/compositor.rs:52-65 | Painting the sorted layers in order shows the winning layer, or what is underneath |
| Compositor.Blit | kernel/src/display/compositor.rs:68-96 | Pixels under a non-transparent source pixel take its bytes, all others and the padding stay |
| Compositor.BlitRow | kernel/src/display/compositor.rs:82-94 | The same for one source row |
| Compositor.Screen.Render | kernel/src/display/compositor.rs:52-65 | Every pixel shows the covering non-transparent layer with the highest z, the latest pushed among equals, or the background; padding is untouched |
| Bresenham.PenBounded | kernel/src/ui/canvas.rs:39-63 | The longer axis advances every step and the drift stays within half its length, ties going to the shorter axis |
| Bresenham.DriftExact | kernel/src/ui/canvas.rs:45-60 | The error term always equals the cross product of steps taken and the ideal direction |
| Bresenham.PenEnds | kernel/src/ui/canvas.rs:50-52 | The pen never passes the end point and reaches it after exactly max(dx, dy) moves |
| Bresenham.ReachWide | kernel/src/ui/canvas.rs:45-60 | A wide line takes every drift that is a multiple of gcd(dx, dy) within half its length |
| Bresenham.ReachTall | kernel/src/ui/canvas.rs:45-60 | So does a tall line, with the tie on the other side |
| Bresenham.FitsExactly | kernel/src/ui/canvas.rs:40-60 | No value the loop computes leaves i32 iff a condition on the two differences and their gcd holds |
| Bresenham.SafeLength | kernel/src/ui/canvas.rs:40-60 | All lines with sides up to L stay inside i32 iff L <= 715827883 |
| Bresenham.ErrorPeak | kernel/src/ui/canvas.rs:53-53 | On the line of 715827884 by 1 the doubled error leaves i32 in round 357913942 |
| Canvas.EndPoint | kernel/src/ui/canvas.rs:50-52 | The pen is at (x1, y1) after max(dx, dy) moves and at no earlier time |
| Canvas.NearLine | kernel/src/ui/canvas.rs:39-63 | Every point drawn is within half a pixel of the ideal line |
| Canvas.Line | kernel/src/ui/canvas.rs:39-63 | Some value leaves i32 iff the exact condition on the differences fails; otherwise the loop stops after exactly max(dx, dy) moves at (x1, y1), having coloured the on-screen points of the line and nothing else |
| Canvas.MovePen | kernel/src/ui/canvas.rs:53-61 | One round with its overflow checks passes iff every value of the round fits i32, and then moves the pen one step |
| Canvas.ClipExact | kernel/src/ui/canvas.rs:75-86 | The clipped rectangle is the part of the rectangle on the screen, iff no visible side is 2^31 or longer |
| Canvas.ClipLosesWide | kernel/src/ui/canvas.rs:75-86 | A rectangle 2^31 wide at the origin of a one-pixel screen is clipped to nothing |
| Canvas.FillClipped | kernel/src/ui/canvas.rs:28-31 | Exactly the visible part of the rectangle is coloured, or nothing when a side is too long |
| Checksum.WordsBound | kernel/src/drivers/net/mod.rs:141-149 | The sum of a string of words is bounded by its length |
| Checksum.Be16Spells | kernel/src/drivers/net/mod.rs:144-144 | Words are read most significant byte first |
| Checksum.FoldResidue | kernel/src/drivers/net/mod.rs:150-152 | Folding carries keeps the sum modulo 65535 and is zero only for zero |
| Checksum.VerifiesIff | kernel/src/drivers/net/mod.rs:140-154 | The checksum of a string is 0 iff its word sum is a positive multiple of 65535 |
| Checksum.WordsWith | kernel/src/drivers/net/mod.rs:122-124 | Storing a word at an even offset replaces its share of the sum |
| Checksum.FieldExact | kernel/src/drivers/net/mod.rs:120-124 | With a zeroed field at an even offset, storing v makes the whole verify iff v is the checksum, or the other encoding of zero |
| Checksum.Csum16 | kernel/src/drivers/net/mod.rs:140-154 | The loops compute the ones' complement of the folded word sum modulo 2^32, odd tail included; up to 131074 bytes that is the checksum |
| Checksum.U32Exact | kernel/src/drivers/net/mod.rs:140-154 | On any input the u32 sum gives the checksum iff the carries it loses are a multiple of 65535 and it is not zero by wrapping |
| Checksum.LongSumFails | kernel/src/drivers/net/mod.rs:140-154 | On 65538 to 131074 words of 0xffff it does not |
| Checksum.FoldLoop | kernel/src/drivers/net/mod.rs:150-152 | The carry loop terminates with the folded sum |
| Checksum.TryReplyEcho | kernel/src/drivers/net/mod.rs:88-138 | Which frames are dropped, which are answered and which make an index fail; an answer goes back to the sender's addresses and port with a header that verifies and an otherwise identical frame |
| Checksum.Answer | kernel/src/drivers/net/mod.rs:107-134 | The three layers together produce the answer |
| Checksum.SwapEthernet | kernel/src/drivers/net/mod.rs:107-110 | The sender's address becomes the destination and ours the source; the rest is kept |
| Checksum.SwapAddresses | kernel/src/drivers/net/mod.rs:112-124 | The two IP addresses change places and the header verifies |
| Checksum.SwapPorts | kernel/src/drivers/net/mod.rs:126-134 | The two ports change places and the UDP checksum is zero |
| Checksum.SetChecksum | kernel/src/drivers/net/mod.rs:120-124 | Only the checksum field changes and the header verifies |

## Left out

- VirtioBlk.VirtioBlk.Run: one request at a time; two overlapping `do_request` calls, where the ignored used id could belong to the other, are not modelled.
- VirtioBlk.BlkDevice.Service: the device is the environment; it executes a published chain faithfully and once, and reports errors only for requests past the medium's end.
- VirtioBlk.VirtioBlk.DoRequest: header, status and data are placed disjointly in memory by the allocator, which is a precondition.
- VirtioNet.RxPath.constructor: receive buffers have distinct addresses, as separate allocations do; the MAC address and the transmit queue are not part of this model.
- virtio-net `send`: a one-descriptor chain over the same virtqueue, with nothing harder than a block request.
- MMIO transport, feature negotiation, virtio-gpu: register accesses and command structures.
- `parse_or_fallback`'s header checks: the model starts at the structure and strings blocks.
- FdtWalk.WalkBlock: the per-depth arrays are one array of records; `cur_name` and `cur_compatible`, which are only written, are dropped; cursor arithmetic is unbounded, and fits a 64-bit usize because lengths are 32-bit.
- ElfLoader.LoadKernelElf: the outcome of AllocatePages is a parameter, and memory under the segments' file bytes is assumed to exist even where a malformed header points outside the granted range.
- UefiBoot.BuildHandoff: a descriptor size of zero, with which the loop would not end, is excluded; the console, interrupt and framebuffer parts of the handoff are left out.
- Pmm.Pmm.Init: is called once, as its documentation demands; the atomic counters are ordinary fields.
- Vmm.AddressSpace.Map: zeroing of the root frame and hardware page tables are left out; the ordered map is a `map` and its predecessor lookup a search.
- Ramfs.RamNode.WriteAt: what a panicking write leaves in the file is not modelled; memory exhaustion is left out.
- Vfs.ReadAll: ends with bytes; the lossy conversion to text is left out.
- `list`, `list_root`, `ftype` and other accessors of the filesystem.
- Scheduler.SchedState.YieldNow: the switch is "save into the previous thread, load from the next"; assembly, stacks, names, process ids and interrupt masking are left out.
- `need_resched` and timer preemption: the flag is set but never consulted.
- Framebuffers.Framebuffer.FillRect: what is written before an index panics is not modelled.
- Framebuffers.Framebuffer.constructor: buffers whose rows hold their pixels and whose offsets fit u32; memory-mapped backing is the same array.
- Compositor.Screen.Render: layers whose coordinates stay within i32 and that are not the monitor's own buffer; the library's stable sort is modelled by insertion.
- Canvas.Line: what a line that leaves i32 draws when arithmetic wraps instead of trapping; `stroke_rect`, `draw_text`, fonts and widgets are left out.
- Checksum.TryReplyEcho: the frame is answered or not; handing it to the device is `send`.
- Boot assembly, exception and interrupt controllers, UART and console, logging, shell, multiboot, heap, IPC and capabilities.
